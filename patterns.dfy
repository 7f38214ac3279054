/**
 * The regular expressions of the sources, written out as sequences of
 * tokens and matched by hand.
 *
 * Every pattern used here is a concatenation in which each greedy
 * repetition is followed by something that cannot begin with a character
 * of the repeated class (`\s*` before `=`, `\d+` before the end of the
 * input, ...). For such a pattern JavaScript's backtracking matcher can
 * only succeed by taking every repetition to its maximal length, so the
 * deterministic left-to-right reading below finds exactly the match the
 * engine finds. The two constructs that need a search, `.*?` followed by a
 * literal and `.*?is\s+\d+\.?$`, have tokens of their own.
 */
module Patterns {
  import opened Wrappers
  import opened Text

  datatype Token =
    | Lit(text: String)        // literal text, case-sensitive
    | NoCase(word: String)     // a lower-case word under the `/i` flag
    | Spaces(atLeastOne: bool) // `\s+` when atLeastOne, `\s*` otherwise
    | Opt(c: char)             // `c?`
    | Digits                   // `\d+`
    | LazyUntil(close: String) // `.*?` followed by the literal `close`; only as the last token
    | ToEnd                    // `.*$` without the `m` flag: the rest of the input, on one line
    | NumberClause             // `.*?is\s+\d+\.?$` under the `/i` flag

  type Pattern = seq<Token>

  /** `u` is exactly `is`, whitespace, digits and an optional full stop (the regex `is\s+\d+\.?`, anchored). */
  ghost predicate IsNumberEnding(u: String) {
    exists a, b {:trigger u[a..b]} :: 2 < a < b <= |u|
      && (forall k :: 2 <= k < a ==> IsSpace(u[k]))
      && (forall k :: a <= k < b ==> IsDigit(u[k]))
      && ContainsAtNoCase(u, "is", 0)
      && (u[b..] == [] || u[b..] == ".")
  }

  /** The decomposition `NumberTail` finds is an instance of `IsNumberEnding`. */
  lemma NumberEndingAt(s: String, t: nat, d: nat, p: nat)
    requires t + 2 < d < p <= |s|
    requires ContainsAtNoCase(s, "is", t)
    requires forall k :: t + 2 <= k < d ==> IsSpace(s[k])
    requires forall k :: d <= k < p ==> IsDigit(s[k])
    requires s[p..] == [] || s[p..] == "."
    ensures IsNumberEnding(s[t..])
  {
    var u := s[t..];
    assert u[0..2] == s[t..t + 2];
    assert u[p - t..] == s[p..];
    var a, b := d - t, p - t;
    assert u[a..b] == s[d..p];
  }

  /**
   * Where `is\s+\d+\.?$` starts in `s`, read backwards from the end: the
   * final full stop is optional, the digits and the whitespace before them
   * are maximal, and `is` must come right before the whitespace.
   */
  function NumberTail(s: String): (r: Option<nat>)
    ensures r.Some? ==> r.value <= |s| && IsNumberEnding(s[r.value..])
  {
    var p := if s != [] && s[|s| - 1] == '.' then |s| - 1 else |s|;
    assert s[p..] == [] || s[p..] == ".";
    var d := RunStart(s, p, IsDigit);
    var w := RunStart(s, d, IsSpace);
    if d < p && w < d && w >= 2 && ContainsAtNoCase(s, "is", w - 2) then
      NumberEndingAt(s, w - 2, d, p);
      Some(w - 2)
    else None
  }

  /**
   * `.*?w` from position `j`: the first position at which `w` occurs with
   * no line break between `j` and it.
   */
  function LazyFrom(s: String, j: nat, w: String): (r: Option<nat>)
    requires j <= |s|
    ensures r.Some? ==> j <= r.value && ContainsAt(s, w, r.value) && NoLineBreak(s[j..r.value])
    ensures r.Some? ==> forall k :: j <= k < r.value ==> !ContainsAt(s, w, k)
    ensures r.None? ==> forall k :: j <= k <= |s| && NoLineBreak(s[j..k]) ==> !ContainsAt(s, w, k)
    decreases |s| - j
  {
    if ContainsAt(s, w, j) then Some(j)
    else if j == |s| || IsLineTerminator(s[j]) then
      assert forall k :: j < k <= |s| ==> s[j..k][0] == s[j];
      None
    else
      var r := LazyFrom(s, j + 1, w);
      assert forall k :: j < k <= |s| ==> s[j..k] == [s[j]] + s[j + 1..k];
      r
  }

  /** How many characters of `s` the token `t` consumes when matched at the start of `s`. */
  function TokenLen(s: String, t: Token): (r: Option<nat>)
    ensures r.Some? ==> r.value <= |s|
  {
    match t
    case Lit(w) => if StartsWith(s, w) then Some(|w|) else None
    case NoCase(w) => if ContainsAtNoCase(s, w, 0) then Some(|w|) else None
    case Spaces(one) =>
      var n := RunEnd(s, 0, IsSpace);
      if one && n == 0 then None else Some(n)
    case Opt(c) => if s != [] && s[0] == c then Some(1) else Some(0)
    case Digits =>
      var n := RunEnd(s, 0, IsDigit);
      if n == 0 then None else Some(n)
    case LazyUntil(w) =>
      (match LazyFrom(s, 0, w)
       case Some(k) => Some(k + |w|)
       case None => None)
    case ToEnd => if NoLineBreak(s) then Some(|s|) else None
    case NumberClause =>
      match NumberTail(s)
      case Some(k) => if NoLineBreak(s[..k]) then Some(|s|) else None
      case None => None
  }

  /** The length of the match of `p` at the start of `s`, if `p` matches there. */
  function Match(s: String, p: Pattern): (r: Option<nat>)
    ensures r.Some? ==> r.value <= |s|
    decreases |p|
  {
    if p == [] then Some(0)
    else
      match TokenLen(s, p[0])
      case None => None
      case Some(n) =>
        match Match(s[n..], p[1..])
        case None => None
        case Some(m) => Some(n + m)
  }

  /** A pattern that matches has its first token matching at the start. */
  lemma FirstTokenMatches(s: String, p: Pattern)
    requires p != [] && Match(s, p).Some?
    ensures TokenLen(s, p[0]).Some?
  {
  }

  /** `p` matches at position `k` of `s`. */
  predicate MatchesAt(s: String, p: Pattern, k: int) {
    0 <= k <= |s| && Match(s[k..], p).Some?
  }

  /** The leftmost position at or after `j` at which `p` matches. */
  function FirstMatchFrom(s: String, j: nat, p: Pattern): (r: Option<nat>)
    requires j <= |s|
    ensures r.Some? ==> j <= r.value && MatchesAt(s, p, r.value)
    ensures forall k :: j <= k <= |s| && (r.None? || k < r.value) ==> !MatchesAt(s, p, k)
    decreases |s| - j
  {
    if MatchesAt(s, p, j) then Some(j)
    else if j == |s| then None
    else FirstMatchFrom(s, j + 1, p)
  }

  /** The leftmost position at which `p` matches: what a non-global `match` or `search` looks for. */
  function FirstMatch(s: String, p: Pattern): (r: Option<nat>)
    ensures r.Some? ==> MatchesAt(s, p, r.value)
    ensures forall k :: 0 <= k <= |s| && (r.None? || k < r.value) ==> !MatchesAt(s, p, k)
  {
    FirstMatchFrom(s, 0, p)
  }

  /** The match length of `p` at the start of a text, as a function value. */
  function Matcher(p: Pattern): String -> Option<nat> {
    t => Match(t, p)
  }

  /**
   * The scan of a global replace for a matcher `m`: where `m` reports a
   * non-empty match the replacement is written and the scan resumes after
   * the match, so matches never overlap; elsewhere the character is copied.
   */
  function ReplaceBy(s: String, m: String -> Option<nat>, repl: String): String
    decreases |s|
  {
    if s == [] then []
    else
      match m(s)
      case Some(n) =>
        if 0 < n <= |s| then repl + ReplaceBy(s[n..], m, repl)
        else [s[0]] + ReplaceBy(s[1..], m, repl)
      case None => [s[0]] + ReplaceBy(s[1..], m, repl)
  }

  /**
   * `s.replace(/p/g, repl)`: scanning from the left, every match is replaced
   * and the scan resumes after it. (Each pattern replaced here consumes at
   * least one character, so the empty-match rule of JavaScript never
   * applies.)
   */
  function ReplaceAll(s: String, p: Pattern, repl: String): (r: String)
    ensures repl == [] ==> |r| <= |s|
  {
    DeletionNoLonger(s, Matcher(p));
    ReplaceBy(s, Matcher(p), repl)
  }

  /** Replacing matches by nothing never lengthens the text. */
  lemma {:induction false} DeletionNoLonger(s: String, m: String -> Option<nat>)
    ensures |ReplaceBy(s, m, [])| <= |s|
    decreases |s|
  {
    if s != [] {
      match m(s)
      case Some(n) =>
        if 0 < n <= |s| {
          DeletionNoLonger(s[n..], m);
        } else {
          DeletionNoLonger(s[1..], m);
        }
      case None =>
        DeletionNoLonger(s[1..], m);
    }
  }

  /** One step of the scan where a non-empty match starts: it is replaced and the scan resumes after it. */
  lemma ReplaceAtMatch(s: String, p: Pattern, repl: String)
    requires s != [] && Match(s, p).Some? && Match(s, p).value > 0
    ensures ReplaceAll(s, p, repl) == repl + ReplaceAll(s[Match(s, p).value..], p, repl)
  {
    assert Matcher(p)(s) == Match(s, p);
  }

  /** One step of the scan where no match starts: the character is copied. */
  lemma ReplaceCopies(s: String, p: Pattern, repl: String)
    requires s != [] && Match(s, p).None?
    ensures ReplaceAll(s, p, repl) == [s[0]] + ReplaceAll(s[1..], p, repl)
  {
    assert Matcher(p)(s) == Match(s, p);
  }

  /** Where the matcher reports nothing, the scan copies the text unchanged, from `i` up to `j`. */
  lemma {:induction false} ReplaceBySkips(s: String, i: nat, j: nat, m: String -> Option<nat>, repl: String)
    requires i <= j <= |s|
    requires forall k :: i <= k < j ==> m(s[k..]).None?
    ensures ReplaceBy(s[i..], m, repl) == s[i..j] + ReplaceBy(s[j..], m, repl)
    decreases j - i
  {
    if i < j {
      assert m(s[i..]).None?;
      assert s[i..][1..] == s[i + 1..];
      ReplaceBySkips(s, i + 1, j, m, repl);
      assert s[i..j] == [s[i]] + s[i + 1..j];
    }
  }

  /** A prefix in which no match starts is copied, and the scan goes on after it. */
  lemma ReplaceSkipsUnmatched(a: String, b: String, p: Pattern, repl: String)
    requires forall k :: 0 <= k < |a| ==> Match((a + b)[k..], p).None?
    ensures ReplaceAll(a + b, p, repl) == a + ReplaceAll(b, p, repl)
  {
    var s := a + b;
    forall k | 0 <= k < |a| ensures Matcher(p)(s[k..]).None? {
    }
    ReplaceBySkips(s, 0, |a|, Matcher(p), repl);
    assert s[0..] == s && s[0..|a|] == a && s[|a|..] == b;
  }

  /** A text in which the pattern matches nowhere is left as it is. */
  lemma ReplaceWithoutMatch(s: String, p: Pattern, repl: String)
    requires forall k :: 0 <= k < |s| ==> Match(s[k..], p).None?
    ensures ReplaceAll(s, p, repl) == s
  {
    forall k | 0 <= k < |s| ensures Matcher(p)(s[k..]).None? {
    }
    ReplaceBySkips(s, 0, |s|, Matcher(p), repl);
    assert s[0..] == s && s[0..|s|] == s && s[|s|..] == [];
  }

  /**
   * A cut no match crosses: when every match starting between `i` and the
   * cut `c` reads the same up to the cut as in the whole text and ends
   * before the cut, the scan from `i` is the scan of the text up to the cut
   * followed by the scan of the rest.
   */
  lemma {:induction false} ReplaceByCut(s: String, c: nat, i: nat, m: String -> Option<nat>, repl: String)
    requires i <= c <= |s|
    requires forall k :: i <= k < c ==> m(s[k..]) == m(s[k..c])
    requires forall k :: i <= k < c && m(s[k..c]).Some? ==> m(s[k..c]).value <= c - k
    ensures ReplaceBy(s[i..], m, repl) == ReplaceBy(s[i..c], m, repl) + ReplaceBy(s[c..], m, repl)
    decreases c - i, 1
  {
    if i == c {
      CutAtEnd(s, c, m, repl);
    } else {
      CutStep(s, c, i, m, repl);
    }
  }

  lemma CutAtEnd(s: String, c: nat, m: String -> Option<nat>, repl: String)
    requires c <= |s|
    ensures ReplaceBy(s[c..], m, repl) == ReplaceBy(s[c..c], m, repl) + ReplaceBy(s[c..], m, repl)
  {
    assert s[c..c] == [];
  }

  /** `ReplaceByCut` away from the cut: one scan step, then the rest. */
  lemma {:induction false} CutStep(s: String, c: nat, i: nat, m: String -> Option<nat>, repl: String)
    requires i < c <= |s|
    requires forall k :: i <= k < c ==> m(s[k..]) == m(s[k..c])
    requires forall k :: i <= k < c && m(s[k..c]).Some? ==> m(s[k..c]).value <= c - k
    ensures ReplaceBy(s[i..], m, repl) == ReplaceBy(s[i..c], m, repl) + ReplaceBy(s[c..], m, repl)
    decreases c - i, 0
  {
    assert m(s[i..]) == m(s[i..c]);
    var n := if m(s[i..c]).Some? && 0 < m(s[i..c]).value then m(s[i..c]).value else 1;
    assert n <= c - i;
    var j := i + n;
    CutHoldsFrom(s, c, i, j, m);
    ReplaceByCut(s, c, j, m, repl);
    CutJoin(s, c, i, j, m, repl);
  }

  /** The conditions of `ReplaceByCut` hold from any later start. */
  lemma CutHoldsFrom(s: String, c: nat, i: nat, j: nat, m: String -> Option<nat>)
    requires i <= j <= c <= |s|
    requires forall k :: i <= k < c ==> m(s[k..]) == m(s[k..c])
    requires forall k :: i <= k < c && m(s[k..c]).Some? ==> m(s[k..c]).value <= c - k
    ensures forall k :: j <= k < c ==> m(s[k..]) == m(s[k..c])
    ensures forall k :: j <= k < c && m(s[k..c]).Some? ==> m(s[k..c]).value <= c - k
  {
  }

  /** The step of `ReplaceByCut`: one scan step taken on both sides of the equation. */
  lemma CutJoin(s: String, c: nat, i: nat, j: nat, m: String -> Option<nat>, repl: String)
    requires i < j <= c <= |s|
    requires m(s[i..]) == m(s[i..c])
    requires j - i == (if m(s[i..c]).Some? && 0 < m(s[i..c]).value then m(s[i..c]).value else 1)
    requires ReplaceBy(s[j..], m, repl) == ReplaceBy(s[j..c], m, repl) + ReplaceBy(s[c..], m, repl)
    ensures ReplaceBy(s[i..], m, repl) == ReplaceBy(s[i..c], m, repl) + ReplaceBy(s[c..], m, repl)
  {
    var t, u, n := s[i..], s[i..c], j - i;
    var x := if m(u).Some? && 0 < m(u).value then repl else [u[0]];
    ScanStep(t, m, repl, n, x);
    ScanStep(u, m, repl, n, x);
    SliceOfSlice(s, i, j, c);
    Regroup(ReplaceBy(t, m, repl), ReplaceBy(u, m, repl), x,
      ReplaceBy(s[j..], m, repl), ReplaceBy(s[j..c], m, repl), ReplaceBy(s[c..], m, repl));
  }

  lemma Regroup(a: String, b: String, x: String, a': String, b': String, rest: String)
    requires a == x + a' && b == x + b' && a' == b' + rest
    ensures a == b + rest
  {
  }

  lemma SliceOfSlice(s: String, i: nat, j: nat, c: nat)
    requires i <= j <= c <= |s|
    ensures s[i..][j - i..] == s[j..] && s[i..c][j - i..] == s[j..c]
  {
  }

  /** One step of the scan, consuming `n` characters and writing `x`. */
  lemma ScanStep(s: String, m: String -> Option<nat>, repl: String, n: nat, x: String)
    requires s != [] && n <= |s|
    requires n == (if m(s).Some? && 0 < m(s).value then m(s).value else 1)
    requires x == (if m(s).Some? && 0 < m(s).value then repl else [s[0]])
    ensures ReplaceBy(s, m, repl) == x + ReplaceBy(s[n..], m, repl)
  {
  }

  /** `ReplaceByCut` for a pattern, with the text given as the two sides of the cut. */
  lemma ReplaceSplits(a: String, b: String, p: Pattern, repl: String)
    requires forall k :: 0 <= k < |a| ==> Match((a + b)[k..], p) == Match(a[k..], p)
    requires forall k :: 0 <= k < |a| && Match(a[k..], p).Some? ==> Match(a[k..], p).value <= |a| - k
    ensures ReplaceAll(a + b, p, repl) == ReplaceAll(a, p, repl) + ReplaceAll(b, p, repl)
  {
    var s, m := a + b, Matcher(p);
    forall k | 0 <= k < |a|
      ensures m(s[k..]) == m(s[k..|a|])
      ensures m(s[k..|a|]).Some? ==> m(s[k..|a|]).value <= |a| - k
    {
      assert s[k..|a|] == a[k..];
    }
    ReplaceByCut(s, |a|, 0, m, repl);
    assert s[0..] == s && s[0..|a|] == a && s[|a|..] == b;
  }

  /**
   * A line break at `p`, the last position of `t` or the one just after it,
   * ends the lazy scan there: the scan gives the same answer on `t` as on
   * any longer text `s` that starts with `t`, and a terminator it finds
   * ends inside `t`.
   */
  lemma {:induction false} LazyFromCut(s: String, t: String, j: nat, w: String, p: nat)
    requires |t| <= |s| && s[..|t|] == t && j <= |t|
    requires w != [] && NoLineBreak(w)
    requires j <= p < |s| && (p == |t| || p + 1 == |t|) && IsLineTerminator(s[p])
    ensures LazyFrom(s, j, w) == LazyFrom(t, j, w)
    ensures LazyFrom(t, j, w).Some? ==> LazyFrom(t, j, w).value + |w| <= |t|
    decreases |t| - j
  {
    assert forall i :: 0 <= i < |t| ==> s[i] == t[i] by {
      assert forall i :: 0 <= i < |t| ==> s[..|t|][i] == s[i];
    }
    if j + |w| <= |t| {
      assert s[j..j + |w|] == t[j..j + |w|];
    } else if j + |w| <= |s| {
      assert s[j..j + |w|][p - j] == s[p];
      assert !IsLineTerminator(w[p - j]);
    }
    if j < |t| {
      assert s[j] == t[j];
      if !ContainsAt(t, w, j) && !IsLineTerminator(t[j]) {
        LazyFromCut(s, t, j + 1, w, p);
      }
    }
  }

  /** A leading literal that is there adds its length to the match of the rest of the pattern. */
  lemma LiteralThenRest(a: String, u: String, p: Pattern, m: nat)
    requires Match(u, p) == Some(m)
    ensures Match(a + u, [Lit(a)] + p) == Some(|a| + m)
  {
    var q := [Lit(a)] + p;
    assert q[0] == Lit(a) && q[1..] == p;
    assert TokenLen(a + u, Lit(a)) == Some(|a|) by { assert (a + u)[0..|a|] == a; }
    assert (a + u)[|a|..] == u;
  }

  /** A run of whitespace before a non-space is all that `\s*` consumes. */
  lemma SpacesThenRest(sp: String, u: String, p: Pattern, m: nat)
    requires forall i :: 0 <= i < |sp| ==> IsSpace(sp[i])
    requires u == [] || !IsSpace(u[0])
    requires Match(u, p) == Some(m)
    ensures Match(sp + u, [Spaces(false)] + p) == Some(|sp| + m)
  {
    SpaceRunEnd(sp, u);
    SpacesStep(sp, u, p, m);
  }

  lemma SpacesStep(sp: String, u: String, p: Pattern, m: nat)
    requires RunEnd(sp + u, 0, IsSpace) == |sp|
    requires Match(u, p) == Some(m)
    ensures Match(sp + u, [Spaces(false)] + p) == Some(|sp| + m)
  {
    var s, q := sp + u, [Spaces(false)] + p;
    assert q[0] == Spaces(false) && q[1..] == p;
    assert TokenLen(s, q[0]) == Some(|sp|);
    assert s[|sp|..] == u;
  }

  lemma SpaceRunEnd(sp: String, u: String)
    requires forall i :: 0 <= i < |sp| ==> IsSpace(sp[i])
    requires u == [] || !IsSpace(u[0])
    ensures RunEnd(sp + u, 0, IsSpace) == |sp|
  {
    var s := sp + u;
    assert forall i :: 0 <= i < |sp| ==> s[i] == sp[i];
    assert |sp| < |s| ==> s[|sp|] == u[0];
    RunEndAt(s, 0, |sp|, IsSpace);
  }

  /**
   * A pattern of literals and `\s*` runs, paired with the text each token
   * consumes: the text of the pieces in order ...
   */
  function PiecesText(ps: seq<(Token, String)>): (r: String)
    ensures ps != [] ==> r == ps[0].1 + PiecesText(ps[1..])
  {
    if ps == [] then [] else ps[0].1 + PiecesText(ps[1..])
  }

  /** ... and the pattern of their tokens. */
  function PiecesPattern(ps: seq<(Token, String)>): (r: Pattern)
    ensures |r| == |ps| && forall i :: 0 <= i < |ps| ==> r[i] == ps[i].0
  {
    if ps == [] then [] else [ps[0].0] + PiecesPattern(ps[1..])
  }

  /**
   * Piece `i` is what its token consumes: a literal its own text, a `\s*`
   * a whitespace run that stops at the non-space starting the next piece.
   */
  predicate PieceFits(ps: seq<(Token, String)>, i: nat)
    requires i < |ps|
  {
    match ps[i].0
    case Lit(w) => ps[i].1 == w
    case Spaces(one) =>
      && !one
      && (forall k :: 0 <= k < |ps[i].1| ==> IsSpace(ps[i].1[k]))
      && i + 1 < |ps| && ps[i + 1].1 != [] && !IsSpace(ps[i + 1].1[0])
    case _ => false
  }

  /** A pattern of fitting pieces matches exactly their text, whatever follows. */
  lemma {:induction false} PiecesMatch(ps: seq<(Token, String)>, v: String)
    requires forall i :: 0 <= i < |ps| ==> PieceFits(ps, i)
    ensures Match(PiecesText(ps) + v, PiecesPattern(ps)) == Some(|PiecesText(ps)|)
    decreases |ps|
  {
    if ps != [] {
      var rest := ps[1..];
      forall i | 0 <= i < |rest|
        ensures PieceFits(rest, i)
      {
        assert PieceFits(ps, i + 1);
        assert rest[i] == ps[i + 1];
        assert i + 1 < |rest| ==> rest[i + 1] == ps[i + 2];
      }
      PiecesMatch(rest, v);
      PieceStep(ps, v);
    }
  }

  /** The inductive step of `PiecesMatch`: one more piece in front. */
  lemma PieceStep(ps: seq<(Token, String)>, v: String)
    requires ps != [] && PieceFits(ps, 0)
    requires Match(PiecesText(ps[1..]) + v, PiecesPattern(ps[1..])) == Some(|PiecesText(ps[1..])|)
    ensures Match(PiecesText(ps) + v, PiecesPattern(ps)) == Some(|PiecesText(ps)|)
  {
    PiecesUnfold(ps, v);
    PieceHead(ps, v);
    SameMatch(PiecesText(ps) + v, ps[0].1 + (PiecesText(ps[1..]) + v), PiecesPattern(ps), [ps[0].0] + PiecesPattern(ps[1..]));
  }

  /** The first piece, whichever its token, consumes exactly its text. */
  lemma PieceHead(ps: seq<(Token, String)>, v: String)
    requires ps != [] && PieceFits(ps, 0)
    requires Match(PiecesText(ps[1..]) + v, PiecesPattern(ps[1..])) == Some(|PiecesText(ps[1..])|)
    ensures Match(ps[0].1 + (PiecesText(ps[1..]) + v), [ps[0].0] + PiecesPattern(ps[1..]))
      == Some(|ps[0].1| + |PiecesText(ps[1..])|)
  {
    if ps[0].0.Lit? {
      LiteralPiece(ps, v);
    } else {
      SpacesPiece(ps, v);
    }
  }

  /** Equal texts and equal patterns match alike. */
  lemma SameMatch(s: String, t: String, p: Pattern, q: Pattern)
    requires s == t && p == q
    ensures Match(s, p) == Match(t, q)
  {
  }

  /** A literal piece consumes its own text. */
  lemma LiteralPiece(ps: seq<(Token, String)>, v: String)
    requires ps != [] && PieceFits(ps, 0) && ps[0].0.Lit?
    requires Match(PiecesText(ps[1..]) + v, PiecesPattern(ps[1..])) == Some(|PiecesText(ps[1..])|)
    ensures Match(ps[0].1 + (PiecesText(ps[1..]) + v), [ps[0].0] + PiecesPattern(ps[1..]))
      == Some(|ps[0].1| + |PiecesText(ps[1..])|)
  {
    LiteralThenRest(ps[0].1, PiecesText(ps[1..]) + v, PiecesPattern(ps[1..]), |PiecesText(ps[1..])|);
  }

  /** The first piece's text and token, split off. */
  lemma PiecesUnfold(ps: seq<(Token, String)>, v: String)
    requires ps != []
    ensures PiecesText(ps) + v == ps[0].1 + (PiecesText(ps[1..]) + v)
    ensures PiecesPattern(ps) == [ps[0].0] + PiecesPattern(ps[1..])
    ensures |PiecesText(ps)| == |ps[0].1| + |PiecesText(ps[1..])|
  {
  }

  /** A whitespace piece consumes its run and nothing of the next piece. */
  lemma SpacesPiece(ps: seq<(Token, String)>, v: String)
    requires ps != [] && PieceFits(ps, 0) && ps[0].0.Spaces?
    requires Match(PiecesText(ps[1..]) + v, PiecesPattern(ps[1..])) == Some(|PiecesText(ps[1..])|)
    ensures Match(ps[0].1 + (PiecesText(ps[1..]) + v), [ps[0].0] + PiecesPattern(ps[1..]))
      == Some(|ps[0].1| + |PiecesText(ps[1..])|)
  {
    var x := PiecesText(ps[1..]) + v;
    assert ps[1..][0] == ps[1];
    assert x[0] == ps[1].1[0];
    SpacesThenRest(ps[0].1, x, PiecesPattern(ps[1..]), |PiecesText(ps[1..])|);
  }


  /** A pattern led by the literal `w` cannot match where `w` does not occur. */
  lemma LeadNeverAt(s: String, p: Pattern, w: String, k: nat)
    requires p != [] && p[0] == Lit(w) && k <= |s| && !ContainsAt(s, w, k)
    ensures Match(s[k..], p).None?
  {
    if k + |w| <= |s| {
      assert s[k..][..|w|] == s[k..k + |w|];
    }
    assert TokenLen(s[k..], p[0]).None?;
  }

  /** A global replace changes nothing in a text where the pattern's leading literal never occurs. */
  lemma LeadAbsentUnchanged(s: String, p: Pattern, w: String, repl: String)
    requires p != [] && p[0] == Lit(w)
    ensures !Contains(s, w) ==> ReplaceAll(s, p, repl) == s
  {
    if !Contains(s, w) {
      forall k | 0 <= k < |s| ensures Match(s[k..], p).None? {
        LeadNeverAt(s, p, w, k);
      }
      ReplaceWithoutMatch(s, p, repl);
    }
  }

  /**
   * One match in the middle: when the leading literal occurs neither in
   * `u` nor in `v`, no occurrence of it can start in `u` and run into
   * `mid`, and the pattern matches exactly `mid` where it starts, the
   * global replace rewrites `mid` alone.
   */
  lemma ReplaceOneMatch(u: String, mid: String, v: String, p: Pattern, w: String, repl: String)
    requires p != [] && p[0] == Lit(w)
    requires !Contains(u, w) && !Contains(v, w)
    requires mid != [] && forall j :: 0 < j < |w| ==> w[j] != mid[0]
    requires Match(mid + v, p) == Some(|mid|)
    ensures ReplaceAll(u + (mid + v), p, repl) == u + (repl + v)
  {
    var s := u + (mid + v);
    NoneStartsBefore(u, mid + v, w);
    forall k | 0 <= k < |u| ensures Match((u + (mid + v))[k..], p).None? {
      LeadNeverAt(s, p, w, k);
    }
    ReplaceSkipsUnmatched(u, mid + v, p, repl);
    ReplaceAtMatch(mid + v, p, repl);
    assert (mid + v)[|mid|..] == v;
    LeadAbsentUnchanged(v, p, w, repl);
  }

  /**
   * JavaScript's leftmost reading of `(.*?)P`: the group may start at `i`
   * and `P` at `k` when `P` matches at `k` and no line break lies between.
   */
  ghost predicate LazyPrefixAt(s: String, p: Pattern, i: int, k: int) {
    0 <= i <= k <= |s| && NoLineBreak(s[i..k]) && MatchesAt(s, p, k)
  }

  /**
   * `s.match(/(.*?)P/)`: returns the start of the match and where `P`
   * begins. The engine tries each start position from the left and, from
   * the first that works, the shortest group; both are the line start of
   * the leftmost match of `P` and that match itself.
   */
  function LazySplit(s: String, p: Pattern): (r: Option<(nat, nat)>)
    ensures r.Some? ==> LazyPrefixAt(s, p, r.value.0, r.value.1)
    ensures r.Some? ==> forall k :: r.value.0 <= k < r.value.1 ==> !LazyPrefixAt(s, p, r.value.0, k)
    ensures r.Some? ==> forall i, k :: 0 <= i < r.value.0 ==> !LazyPrefixAt(s, p, i, k)
    ensures r.None? ==> forall i, k :: !LazyPrefixAt(s, p, i, k)
  {
    match FirstMatch(s, p)
    case None => None
    case Some(k) =>
      var l := LineStart(s, k);
      NoEarlierStart(s, p, k, l);
      Some((l, k))
  }

  lemma NoEarlierStart(s: String, p: Pattern, k: nat, l: nat)
    requires k <= |s| && l == LineStart(s, k)
    requires forall j :: 0 <= j < k ==> !MatchesAt(s, p, j)
    ensures forall i, j :: 0 <= i < l ==> !LazyPrefixAt(s, p, i, j)
  {
  }
}
