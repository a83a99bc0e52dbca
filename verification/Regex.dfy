/**
 * The fragment of ECMAScript regular expressions that the two glob compilers of the repository write, given a meaning on
 * its text: which strings the text between `^` and `$` accepts.
 */
module Regex {
  const DOT_STAR := ".*"
  const SOME_IN_SEGMENT := "[^/]+"
  const ANY_IN_SEGMENT := "[^/]*"
  const SEGMENTS := "(?:.*/)?"

  /** The characters both compilers escape. */
  predicate Special(c: char) {
    c == '.' || c == '+' || c == '?' || c == '^' || c == '$' || c == '{' || c == '}' || c == '(' || c == ')' || c == '|'
    || c == '[' || c == ']' || c == '\\'
  }

  /** What `.` does not match. */
  predicate LineEnd(c: char) { c == '\n' || c == '\r' || c == '\U{2028}' || c == '\U{2029}' }

  predicate OneLine(s: string) { forall i :: 0 <= i < |s| ==> !LineEnd(s[i]) }

  predicate InSegment(s: string) { forall i :: 0 <= i < |s| ==> s[i] != '/' }

  /** What stands for something else in an expression, unless it is behind a backslash. */
  predicate IsSyntax(c: char) { c in ".*+?^${}()|[]\\" }

  /** Whether the regular expression `^re$` accepts `s`; one outside the fragment accepts nothing. */
  predicate Accepts(re: string, s: string)
    decreases |re|
  {
    if re == [] then s == []
    else if SEGMENTS <= re then
      Accepts(re[8..], s)
      || exists k :: 0 <= k < |s| && s[k] == '/' && OneLine(s[..k]) && Accepts(re[8..], s[k + 1..])
    else if SOME_IN_SEGMENT <= re then
      exists k :: 1 <= k <= |s| && InSegment(s[..k]) && Accepts(re[5..], s[k..])
    else if ANY_IN_SEGMENT <= re then
      exists k :: 0 <= k <= |s| && InSegment(s[..k]) && Accepts(re[5..], s[k..])
    else if DOT_STAR <= re then
      exists k :: 0 <= k <= |s| && OneLine(s[..k]) && Accepts(re[2..], s[k..])
    else if re[0] == '\\' then
      |re| > 1 && IsSyntax(re[1]) && s != [] && s[0] == re[1] && Accepts(re[2..], s[1..])
    else
      !IsSyntax(re[0]) && s != [] && s[0] == re[0] && Accepts(re[1..], s[1..])
  }

  /** A character as the compilers write it: escaped when it is special. */
  function Quoted(c: char): string { if Special(c) then ['\\', c] else [c] }

  lemma QuotedAccepts(c: char, re: string, s: string)
    requires c != '*'
    ensures Accepts(Quoted(c) + re, s) <==> s != [] && s[0] == c && Accepts(re, s[1..])
  {
    var whole := Quoted(c) + re;
    if Special(c) {
      assert whole[0] == '\\' && whole[1] == c && whole[2..] == re;
    } else {
      assert whole[0] == c && whole[1..] == re;
    }
  }

  lemma SegmentsAccepts(re: string, s: string)
    ensures Accepts(SEGMENTS + re, s) <==>
            || Accepts(re, s)
            || exists k :: 0 <= k < |s| && s[k] == '/' && OneLine(s[..k]) && Accepts(re, s[k + 1..])
  {
    assert (SEGMENTS + re)[8..] == re;
  }

  lemma SomeInSegmentAccepts(re: string, s: string)
    ensures Accepts(SOME_IN_SEGMENT + re, s) <==>
            exists k :: 1 <= k <= |s| && InSegment(s[..k]) && Accepts(re, s[k..])
  {
    var whole := SOME_IN_SEGMENT + re;
    assert whole[5..] == re && whole[0] == '[';
  }

  lemma AnyInSegmentAccepts(re: string, s: string)
    ensures Accepts(ANY_IN_SEGMENT + re, s) <==>
            exists k :: 0 <= k <= |s| && InSegment(s[..k]) && Accepts(re, s[k..])
  {
    var whole := ANY_IN_SEGMENT + re;
    assert whole[5..] == re && whole[0] == '[' && whole[4] == '*';
  }

  lemma DotStarAccepts(re: string, s: string)
    ensures Accepts(DOT_STAR + re, s) <==>
            exists k :: 0 <= k <= |s| && OneLine(s[..k]) && Accepts(re, s[k..])
  {
    var whole := DOT_STAR + re;
    assert whole[2..] == re && whole[0] == '.';
  }
}
