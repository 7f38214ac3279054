/**
 * Strings as the JavaScript sources see them: sequences of UTF-16 code units
 * (every character used here is a single unit), with the character classes
 * and the whitespace helpers that the regular expressions and `trim()` use.
 */
module Text {

  type String = seq<char>

  /** EM DASH, U+2014, which OCR produces for a minus sign. */
  const EmDash: char := '\U{2014}'
  /** SUPERSCRIPT TWO, U+00B2. */
  const SuperTwo: char := '\U{00B2}'

  /** The characters JavaScript's `.` refuses to match. */
  predicate IsLineTerminator(c: char) {
    c == '\n' || c == '\r' || c == '\U{2028}' || c == '\U{2029}'
  }

  /** JavaScript's `\s`, which is also exactly the set `trim()` removes. */
  predicate IsSpace(c: char) {
    || IsLineTerminator(c)
    || c == ' ' || c == '\t' || c == '\U{000B}' || c == '\U{000C}'
    || c == '\U{00A0}' || c == '\U{1680}' || ('\U{2000}' <= c <= '\U{200A}')
    || c == '\U{202F}' || c == '\U{205F}' || c == '\U{3000}' || c == '\U{FEFF}'
  }

  /** The class `[ \t]`. */
  predicate IsBlank(c: char) {
    c == ' ' || c == '\t'
  }

  /** JavaScript's `\d`. */
  predicate IsDigit(c: char) {
    '0' <= c <= '9'
  }

  /** ASCII lower-casing, the folding both `/i` and `toLowerCase()` apply to ASCII letters. */
  function LowerChar(c: char): char {
    if 'A' <= c <= 'Z' then (c as int + 32) as char else c
  }

  function Lower(s: String): (r: String)
    ensures |r| == |s|
    ensures forall i :: 0 <= i < |s| ==> r[i] == LowerChar(s[i])
  {
    seq(|s|, i requires 0 <= i < |s| => LowerChar(s[i]))
  }

  /** `p` occurs in `s` at position `i`. */
  predicate ContainsAt(s: String, p: String, i: int) {
    0 <= i && i + |p| <= |s| && s[i..i + |p|] == p
  }

  /** `s.includes(p)`. */
  predicate Contains(s: String, p: String) {
    exists i :: 0 <= i <= |s| - |p| && ContainsAt(s, p, i)
  }

  /** `s.startsWith(p)`. */
  predicate StartsWith(s: String, p: String) {
    ContainsAt(s, p, 0)
  }

  /** The lower-case word `w` occurs in `s` at position `i`, ignoring the case of ASCII letters. */
  predicate ContainsAtNoCase(s: String, w: String, i: int) {
    0 <= i && i + |w| <= |s| && Lower(s[i..i + |w|]) == w
  }

  predicate NoLineBreak(s: String) {
    forall i :: 0 <= i < |s| ==> !IsLineTerminator(s[i])
  }

  /** Neither end of `s` is whitespace: what `trim()` leaves behind. */
  predicate Trimmed(s: String) {
    s == [] || (!IsSpace(s[0]) && !IsSpace(s[|s| - 1]))
  }

  /** Every character of `s` in `[lo, hi)` is whitespace. */
  predicate AllSpace(s: String, lo: int, hi: int) {
    forall i :: lo <= i < hi && 0 <= i < |s| ==> IsSpace(s[i])
  }

  /** How many whitespace characters `trim()` removes at the front. */
  function TrimOffset(s: String): (a: nat)
    ensures a <= |s| && AllSpace(s, 0, a)
    ensures a < |s| ==> !IsSpace(s[a])
  {
    RunEnd(s, 0, IsSpace)
  }

  /** `s.trim()`: the longest slice of `s` with no whitespace at either end. */
  function Trim(s: String): (r: String)
    ensures TrimOffset(s) + |r| <= |s|
    ensures r == s[TrimOffset(s)..TrimOffset(s) + |r|]
    ensures AllSpace(s, 0, TrimOffset(s)) && AllSpace(s, TrimOffset(s) + |r|, |s|)
    ensures Trimmed(r)
  {
    var a := TrimOffset(s);
    var b := RunStart(s, |s|, IsSpace);
    if a < b then
      assert s[a..b][0] == s[a] && s[a..b][b - a - 1] == s[b - 1];
      s[a..b]
    else []
  }

  /** Trimming a string that is already trimmed changes nothing. */
  lemma TrimOfTrimmed(s: String)
    requires Trimmed(s)
    ensures Trim(s) == s
  {
    if s != [] {
      assert TrimOffset(s) == 0;
      assert RunStart(s, |s|, IsSpace) == |s|;
      assert s[0..|s|] == s;
    }
  }

  /** A slice of `s` that ends inside `s`: the characters of `Trim(s)` all come from `s`, in order. */
  lemma TrimChars(s: String)
    ensures forall c :: c in Trim(s) ==> c in s
  {
    SliceChars(s, TrimOffset(s), TrimOffset(s) + |Trim(s)|);
  }

  /** Every character of a slice occurs in the whole. */
  lemma SliceChars(s: String, a: nat, b: nat)
    requires a <= b <= |s|
    ensures forall c :: c in s[a..b] ==> c in s
  {
    forall c | c in s[a..b] ensures c in s {
      var i :| 0 <= i < b - a && s[a..b][i] == c;
      assert s[a + i] == c;
    }
  }

  /** The end of the maximal run of `cls` characters that starts at `i`. */
  function RunEnd(s: String, i: nat, cls: char -> bool): (j: nat)
    requires i <= |s|
    ensures i <= j <= |s|
    ensures forall k :: i <= k < j ==> cls(s[k])
    ensures j < |s| ==> !cls(s[j])
    decreases |s| - i
  {
    if i < |s| && cls(s[i]) then RunEnd(s, i + 1, cls) else i
  }

  /** The start of the maximal run of `cls` characters that ends at `j`. */
  function RunStart(s: String, j: nat, cls: char -> bool): (i: nat)
    requires j <= |s|
    ensures i <= j
    ensures forall k :: i <= k < j ==> cls(s[k])
    ensures i > 0 ==> !cls(s[i - 1])
    decreases j
  {
    if j > 0 && cls(s[j - 1]) then RunStart(s, j - 1, cls) else j
  }

  /**
   * `s.replace(/C+/g, ' ')` for a character class `C` that holds the
   * space: every maximal run of `C` characters becomes one space.
   */
  function Collapse(s: String, cls: char -> bool): (r: String)
    requires cls(' ')
    ensures |r| <= |s|
    ensures forall i :: 0 <= i < |r| && cls(r[i]) ==> r[i] == ' '
    ensures forall i :: 0 <= i < |r| - 1 && cls(r[i]) ==> !cls(r[i + 1])
    ensures forall c :: c in r && c != ' ' ==> c in s
    ensures s != [] ==> r != [] && (cls(r[0]) <==> cls(s[0]))
    decreases |s|
  {
    if s == [] then []
    else if cls(s[0]) then
      var rest := s[RunEnd(s, 0, cls)..];
      var r' := Collapse(rest, cls);
      assert forall c :: c in rest ==> c in s;
      [' '] + r'
    else
      var r' := Collapse(s[1..], cls);
      assert forall c :: c in s[1..] ==> c in s;
      [s[0]] + r'
  }

  /** Text whose class characters are already lone spaces is left as it is. */
  lemma {:induction false} CollapseFixed(s: String, cls: char -> bool)
    requires cls(' ')
    requires forall i :: 0 <= i < |s| && cls(s[i]) ==> s[i] == ' '
    requires forall i :: 0 <= i < |s| - 1 && cls(s[i]) ==> !cls(s[i + 1])
    ensures Collapse(s, cls) == s
    decreases |s|
  {
    if s != [] {
      if cls(s[0]) {
        assert |s| > 1 ==> !cls(s[1]);
        assert RunEnd(s, 0, cls) == 1 by {
          if |s| > 1 {
            assert RunEnd(s, 1, cls) == 1;
          }
        }
      }
      CollapseFixed(s[1..], cls);
      assert s == [s[0]] + s[1..];
    }
  }

  /** A leading run of several class characters becomes one space. */
  lemma CollapseRun(run: String, t: String, cls: char -> bool)
    requires cls(' ') && run != []
    requires forall i :: 0 <= i < |run| ==> cls(run[i])
    requires t == [] || !cls(t[0])
    ensures Collapse(run + t, cls) == [' '] + Collapse(t, cls)
  {
    var s := run + t;
    forall k | 0 <= k <= |run| ensures RunEnd(s, k, cls) == |run| {
      RunEndAt(s, k, |run|, cls);
    }
    assert s[|run|..] == t;
  }

  lemma {:induction false} RunEndAt(s: String, k: nat, j: nat, cls: char -> bool)
    requires k <= j <= |s|
    requires forall i :: k <= i < j ==> cls(s[i])
    requires j == |s| || !cls(s[j])
    ensures RunEnd(s, k, cls) == j
    decreases j - k
  {
    if k < j {
      RunEndAt(s, k + 1, j, cls);
    }
  }

  /** Characters outside the class are copied one by one. */
  lemma {:induction false} CollapsePlain(a: String, t: String, cls: char -> bool)
    requires cls(' ')
    requires forall i :: 0 <= i < |a| ==> !cls(a[i])
    ensures Collapse(a + t, cls) == a + Collapse(t, cls)
    decreases |a|
  {
    if a == [] {
      assert a + t == t;
    } else {
      CollapsePlain(a[1..], t, cls);
      assert (a + t)[1..] == a[1..] + t;
      assert (a + t)[0] == a[0];
      assert a == [a[0]] + a[1..];
    }
  }

  /** One run of class characters between plain text and already collapsed text becomes one space. */
  lemma CollapseOneRun(a: String, run: String, t: String, cls: char -> bool)
    requires cls(' ') && run != []
    requires forall i :: 0 <= i < |a| ==> !cls(a[i])
    requires forall i :: 0 <= i < |run| ==> cls(run[i])
    requires t == [] || !cls(t[0])
    requires forall i :: 0 <= i < |t| && cls(t[i]) ==> t[i] == ' '
    requires forall i :: 0 <= i < |t| - 1 && cls(t[i]) ==> !cls(t[i + 1])
    ensures Collapse(a + (run + t), cls) == a + ([' '] + t)
  {
    CollapsePlain(a, run + t, cls);
    CollapseRun(run, t, cls);
    CollapseFixed(t, cls);
  }

  /** Whitespace is single spaces only, never two in a row, and neither end is whitespace. */
  predicate Normalized(s: String) {
    && Trimmed(s)
    && (forall i :: 0 <= i < |s| && IsSpace(s[i]) ==> s[i] == ' ')
    && (forall i :: 0 <= i < |s| - 1 ==> !(IsSpace(s[i]) && IsSpace(s[i + 1])))
  }

  /** `.replace(/\s+/g, ' ').trim()`, the last two steps of both repairs. */
  function Squeeze(s: String): (r: String)
    ensures Normalized(r)
    ensures forall c :: c in r ==> c in s || c == ' '
  {
    var d := Collapse(s, IsSpace);
    TrimChars(d);
    TrimKeepsSpacing(d);
    Trim(d)
  }

  /** Trimming keeps single, isolated spaces as the only whitespace. */
  lemma TrimKeepsSpacing(d: String)
    requires forall i :: 0 <= i < |d| && IsSpace(d[i]) ==> d[i] == ' '
    requires forall i :: 0 <= i < |d| - 1 && IsSpace(d[i]) ==> !IsSpace(d[i + 1])
    ensures Normalized(Trim(d))
  {
    var a, r := TrimOffset(d), Trim(d);
    forall i | 0 <= i < |r| ensures r[i] == d[a + i] {
    }
  }

  /** `s.replace(/x/g, y)` for a single character `x`. */
  function ReplaceChar(s: String, x: char, y: char): (r: String)
    ensures |r| == |s|
    ensures x != y ==> x !in r
    ensures forall c :: c in r ==> c == y || (c in s && c != x)
  {
    seq(|s|, i requires 0 <= i < |s| => if s[i] == x then y else s[i])
  }

  /** The start of the line holding position `k`: just after the last line terminator before `k`. */
  function LineStart(s: String, k: nat): (j: nat)
    requires k <= |s|
    ensures j <= k
    ensures j == 0 || IsLineTerminator(s[j - 1])
    ensures NoLineBreak(s[j..k])
    decreases k
  {
    if k == 0 || IsLineTerminator(s[k - 1]) then k
    else
      var j := LineStart(s, k - 1);
      assert s[j..k] == s[j..k - 1] + [s[k - 1]];
      j
  }

  /** The end of the line holding position `j`: the first line terminator at or after `j`, or the end. */
  function LineEnd(s: String, j: nat): (e: nat)
    requires j <= |s|
    ensures j <= e <= |s|
    ensures e == |s| || IsLineTerminator(s[e])
    ensures NoLineBreak(s[j..e])
    decreases |s| - j
  {
    if j == |s| || IsLineTerminator(s[j]) then j else LineEnd(s, j + 1)
  }

  /**
   * No occurrence of `w` starts in `a` when `a` holds none and the first
   * character of `b` is not a later character of `w`.
   */
  lemma NoneStartsBefore(a: String, b: String, w: String)
    requires !Contains(a, w)
    requires b != [] && forall j :: 0 < j < |w| ==> w[j] != b[0]
    ensures forall k :: 0 <= k < |a| ==> !ContainsAt(a + b, w, k)
  {
    forall k | 0 <= k < |a| ensures !ContainsAt(a + b, w, k) {
      if k + |w| <= |a| {
        assert (a + b)[k..k + |w|] == a[k..k + |w|];
        assert !ContainsAt(a, w, k);
      } else if k + |w| <= |a + b| {
        assert (a + b)[k..k + |w|][|a| - k] == b[0];
        assert w[|a| - k] != b[0];
      }
    }
  }

  /** No occurrence of `w` starts in `a` when the first character of `w` is not in `a`. */
  lemma FirstCharAbsent(a: String, b: String, w: String)
    requires w != [] && w[0] !in a
    ensures forall k :: 0 <= k < |a| ==> !ContainsAt(a + b, w, k)
  {
    forall k | 0 <= k < |a| ensures !ContainsAt(a + b, w, k) {
      if k + |w| <= |a + b| {
        assert (a + b)[k..k + |w|][0] == a[k];
      }
    }
  }

  /** `w` occurs in `a + b` only where it starts inside `a` or occurs in `b`. */
  lemma NoneInJoin(a: String, b: String, w: String)
    requires forall k :: 0 <= k < |a| ==> !ContainsAt(a + b, w, k)
    requires !Contains(b, w)
    ensures !Contains(a + b, w)
  {
    forall k | |a| <= k <= |a + b| - |w| ensures !ContainsAt(a + b, w, k) {
      assert (a + b)[k..k + |w|] == b[k - |a|..k - |a| + |w|];
      assert !ContainsAt(b, w, k - |a|);
    }
  }

  /** Replacing a character that does not occur changes nothing. */
  lemma ReplaceCharAbsent(s: String, x: char, y: char)
    requires x !in s
    ensures ReplaceChar(s, x, y) == s
  {
  }

  /** A letter missing from `s` rules out every word that contains it. */
  lemma AbsentCharRulesOut(s: String, p: String, c: char)
    requires c in p && c !in s
    ensures !Contains(s, p)
  {
  }
}
