/**
 * The rate limiter's path patterns (packages/http/src/rate-limit.ts): a pattern becomes a regular expression in four
 * passes of `replace`, the `**` waiting out the third pass as a placeholder.
 */
module PathPattern {
  import opened Regex

  const DOUBLESTAR := "__DOUBLESTAR__"

  /** The first pass: every special character behind a backslash. */
  function Escaped(p: string): string {
    if p == [] then [] else Quoted(p[0]) + Escaped(p[1..])
  }

  /** `text.replace(/find/g, put)`: the leftmost occurrences, none overlapping. */
  function ReplaceAll(text: string, find: string, put: string): string
    requires find != []
    decreases |text|
  {
    if text == [] then []
    else if find <= text then put + ReplaceAll(text[|find|..], find, put)
    else [text[0]] + ReplaceAll(text[1..], find, put)
  }

  /** The text before the last pass. */
  function WithPlaceholders(p: string): string {
    ReplaceAll(ReplaceAll(Escaped(p), "**", DOUBLESTAR), "*", SOME_IN_SEGMENT)
  }

  /** `compilePathPattern`, the text between `^` and `$`. */
  function CompilePathPattern(p: string): string {
    ReplaceAll(WithPlaceholders(p), DOUBLESTAR, DOT_STAR)
  }

  /** The compiler the passes stand for: one walk over the pattern, from left to right. */
  function Compile(p: string): string {
    if p == [] then []
    else if "**" <= p then DOT_STAR + Compile(p[2..])
    else if p[0] == '*' then SOME_IN_SEGMENT + Compile(p[1..])
    else Quoted(p[0]) + Compile(p[1..])
  }

  // -------------------------------------------------------------------------------------------------------------
  // The first three passes
  // -------------------------------------------------------------------------------------------------------------

  lemma ReplaceStep(text: string, c: char, find: string, put: string)
    requires find != [] && !(find <= [c] + text)
    ensures ReplaceAll([c] + text, find, put) == [c] + ReplaceAll(text, find, put)
  {
    assert ([c] + text)[1..] == text;
  }

  lemma ReplaceMatch(text: string, find: string, put: string)
    requires find != []
    ensures ReplaceAll(find + text, find, put) == put + ReplaceAll(text, find, put)
  {
    assert (find + text)[|find|..] == text;
  }

  /** Text whose characters cannot begin `find` is copied as it is. */
  lemma {:induction false} ReplaceCopies(copied: string, text: string, find: string, put: string)
    requires find != [] && find[0] !in copied
    ensures ReplaceAll(copied + text, find, put) == copied + ReplaceAll(text, find, put)
    decreases |copied|
  {
    if copied == [] {
      assert copied + text == text;
    } else {
      assert copied + text == [copied[0]] + (copied[1..] + text);
      ReplaceStep(copied[1..] + text, copied[0], find, put);
      ReplaceCopies(copied[1..], text, find, put);
    }
  }

  lemma EscapedStars(p: string)
    ensures "**" <= p ==> Escaped(p) == "**" + Escaped(p[2..])
    ensures "**" <= Escaped(p) ==> "**" <= p
  {
    if p != [] {
      var rest := Escaped(p[1..]);
      assert Escaped(p)[0] == Quoted(p[0])[0] && Escaped(p)[|Quoted(p[0])|..] == rest;
      if p[0] == '*' && |p| > 1 {
        assert rest == Quoted(p[1]) + Escaped(p[1..][1..]) && p[1..][1..] == p[2..];
        assert Escaped(p)[1] == rest[0] == Quoted(p[1])[0];
      }
    }
  }

  /** The three passes, as one walk. */
  lemma PlaceholderStep(p: string)
    requires p != []
    ensures WithPlaceholders(p) ==
            if "**" <= p then DOUBLESTAR + WithPlaceholders(p[2..])
            else if p[0] == '*' then SOME_IN_SEGMENT + WithPlaceholders(p[1..])
            else Quoted(p[0]) + WithPlaceholders(p[1..])
  {
    EscapedStars(p);
    if "**" <= p {
      ReplaceMatch(Escaped(p[2..]), "**", DOUBLESTAR);
      ReplaceCopies(DOUBLESTAR, ReplaceAll(Escaped(p[2..]), "**", DOUBLESTAR), "*", SOME_IN_SEGMENT);
    } else if p[0] == '*' {
      ReplaceStep(Escaped(p[1..]), '*', "**", DOUBLESTAR);
      ReplaceMatch(ReplaceAll(Escaped(p[1..]), "**", DOUBLESTAR), "*", SOME_IN_SEGMENT);
    } else {
      ReplaceCopies(Quoted(p[0]), Escaped(p[1..]), "**", DOUBLESTAR);
      ReplaceCopies(Quoted(p[0]), ReplaceAll(Escaped(p[1..]), "**", DOUBLESTAR), "*", SOME_IN_SEGMENT);
    }
  }

  // -------------------------------------------------------------------------------------------------------------
  // When the placeholder is mistaken
  // -------------------------------------------------------------------------------------------------------------

  /** The pattern's own text, alone or with the placeholder of a `**` after it, reads as a placeholder. */
  predicate ReadsAsPlaceholder(p: string) {
    "__DOUBLESTAR__" <= p || "__DOUBLESTAR_**" <= p || "__DOUBLESTAR**" <= p
  }

  predicate HasPlaceholder(p: string) {
    exists i :: 0 <= i <= |p| && ReadsAsPlaceholder(p[i..])
  }

  /** `ReadsAsPlaceholder` from the `k`th character of the placeholder on. */
  predicate GoesOn(k: nat, p: string)
    requires k <= 14
    decreases 14 - k
  {
    || k == 14
    || (p != [] && p[0] == DOUBLESTAR[k] && GoesOn(k + 1, p[1..]))
    || (k >= 12 && "**" <= p)
  }

  lemma {:induction false} PlaceholderGoesOn(k: nat, p: string)
    requires 0 < k <= 14
    ensures DOUBLESTAR[k..] <= WithPlaceholders(p) <==> GoesOn(k, p)
    decreases 14 - k
  {
    hide WithPlaceholders;
    hide GoesOn;
    GoesOnStep(k, p);
    if p == [] {
      NoPlaceholders();
    } else if k < 14 {
      PlaceholderStep(p);
      var w, rest := WithPlaceholders(p), WithPlaceholders(p[1..]);
      if "**" <= p {
        PrefixOfFront(DOUBLESTAR[k..], DOUBLESTAR, WithPlaceholders(p[2..]));
        PlaceholderWithin(k);
      } else {
        PlaceholderGoesOn(k + 1, p[1..]);
        if p[0] != '*' && !Special(p[0]) {
          assert w == [p[0]] + rest;
          OneOnward(k, p[0], rest);
        } else {
          OneOnward(k, w[0], w[1..]);
          assert w == [w[0]] + w[1..];
        }
      }
    }
  }

  lemma GoesOnStep(k: nat, p: string)
    requires 0 < k <= 14
    ensures GoesOn(k, p) <==>
            k == 14 || (p != [] && p[0] == DOUBLESTAR[k] && GoesOn(k + 1, p[1..])) || (k >= 12 && "**" <= p)
  {}

  lemma OneOnward(k: nat, c: char, rest: string)
    requires 0 < k < 14
    ensures DOUBLESTAR[k..] <= [c] + rest <==> c == DOUBLESTAR[k] && DOUBLESTAR[k + 1..] <= rest
    ensures DOUBLESTAR[k] != '*' && !Special(DOUBLESTAR[k])
  {
    assert DOUBLESTAR[k..] == [DOUBLESTAR[k]] + DOUBLESTAR[k + 1..];
    PrefixStep(DOUBLESTAR[k], DOUBLESTAR[k + 1..], [c] + rest);
    assert ([c] + rest)[1..] == rest;
  }

  lemma NoPlaceholders()
    ensures WithPlaceholders([]) == []
  {}

  lemma PrefixOfFront(x: string, front: string, rest: string)
    requires |x| <= |front|
    ensures x <= front + rest <==> x <= front
  {
    assert (front + rest)[..|x|] == front[..|x|];
  }

  /** The placeholder begins with its own last two characters, and with no longer end of it. */
  lemma PlaceholderWithin(k: nat)
    requires 0 < k < 14
    ensures DOUBLESTAR[k..] <= DOUBLESTAR <==> k >= 12
  {
    var d := DOUBLESTAR;
    if k == 1 {
      assert d[1..][1] == 'D';
    } else if k < 12 {
      assert d[k..][0] != '_';
    } else {
      assert d[12..] == "__" && d[13..] == "_" && d[..2] == "__" && d[..1] == "_";
    }
  }

  lemma GoesOnIsReading(p: string)
    ensures p != [] && p[0] == '_' && GoesOn(1, p[1..]) <==> ReadsAsPlaceholder(p)
  {
    ReadsFrom(0, p);
  }

  /** What is left to read from the `k`th character on. */
  lemma {:induction false} ReadsFrom(k: nat, p: string)
    requires k <= 12
    ensures (if k == 0 then p != [] && p[0] == '_' && GoesOn(1, p[1..]) else GoesOn(k, p)) <==>
            || "__DOUBLESTAR__"[k..] <= p || "__DOUBLESTAR_**"[k..] <= p || "__DOUBLESTAR**"[k..] <= p
    decreases 12 - k
  {
    var x, y, z := "__DOUBLESTAR__", "__DOUBLESTAR_**", "__DOUBLESTAR**";
    if k == 12 {
      assert x[12..] == "__" && y[12..] == "_**" && z[12..] == "**";
      assert GoesOn(12, p) <==> (p != [] && p[0] == '_' && GoesOn(13, p[1..])) || "**" <= p;
      if p != [] {
        assert GoesOn(13, p[1..]) <==> (p[1..] != [] && p[1..][0] == '_') || "**" <= p[1..];
      }
    } else {
      assert x[k..] == [x[k]] + x[k + 1..] && y[k..] == [x[k]] + y[k + 1..] && z[k..] == [x[k]] + z[k + 1..];
      if p != [] {
        assert p == [p[0]] + p[1..];
        ReadsFrom(k + 1, p[1..]);
        PrefixStep(x[k], x[k + 1..], p);
        PrefixStep(x[k], y[k + 1..], p);
        PrefixStep(x[k], z[k + 1..], p);
      }
    }
  }

  lemma PrefixStep(c: char, rest: string, p: string)
    requires p != []
    ensures [c] + rest <= p <==> c == p[0] && rest <= p[1..]
  {
    if [c] + rest <= p {
      assert ([c] + rest)[1..] == rest;
    }
  }

  lemma HasPlaceholderStep(p: string, n: nat)
    requires n <= |p| && forall i :: 0 <= i < n ==> !ReadsAsPlaceholder(p[i..])
    ensures HasPlaceholder(p) <==> HasPlaceholder(p[n..])
  {
    if HasPlaceholder(p) {
      var i :| 0 <= i <= |p| && ReadsAsPlaceholder(p[i..]);
      assert p[n..][i - n..] == p[i..];
    }
    if HasPlaceholder(p[n..]) {
      var i :| 0 <= i <= |p[n..]| && ReadsAsPlaceholder(p[n..][i..]);
      assert p[n..][i..] == p[n + i..];
    }
  }

  /**
   * Main result: the four passes compile a pattern as one left-to-right walk does, if and only if no text of the
   * pattern reads as the placeholder, by itself or with a `**` right after it.
   */
  lemma {:induction false} PassesCompileExactly(p: string)
    ensures CompilePathPattern(p) == Compile(p) <==> !HasPlaceholder(p)
    decreases |p|
  {
    hide CompilePathPattern;
    hide Compile;
    hide HasPlaceholder;
    hide ReadsAsPlaceholder;
    if p == [] {
      NothingCompiles();
    } else if "**" <= p {
      StarsStep(p);
      PassesCompileExactly(p[2..]);
    } else if p[0] == '*' || Special(p[0]) {
      CopiedStep(p);
      PassesCompileExactly(p[1..]);
    } else {
      OrdinaryStep(p);
      PassesCompileExactly(p[1..]);
    }
  }

  lemma NothingCompiles()
    ensures CompilePathPattern("") == Compile("") && !HasPlaceholder("")
  {}

  lemma StarsStep(p: string)
    requires "**" <= p
    ensures CompilePathPattern(p) == Compile(p) <==> CompilePathPattern(p[2..]) == Compile(p[2..])
    ensures HasPlaceholder(p) <==> HasPlaceholder(p[2..])
  {
    PlaceholderStep(p);
    ReplaceMatch(WithPlaceholders(p[2..]), DOUBLESTAR, DOT_STAR);
    assert !ReadsAsPlaceholder(p[0..]) && !ReadsAsPlaceholder(p[1..]);
    HasPlaceholderStep(p, 2);
    SameBehind(DOT_STAR, CompilePathPattern(p[2..]), Compile(p[2..]));
  }

  lemma CopiedStep(p: string)
    requires p != [] && !("**" <= p) && (p[0] == '*' || Special(p[0]))
    ensures CompilePathPattern(p) == Compile(p) <==> CompilePathPattern(p[1..]) == Compile(p[1..])
    ensures HasPlaceholder(p) <==> HasPlaceholder(p[1..])
  {
    hide WithPlaceholders;
    hide HasPlaceholder;
    hide ReplaceAll;
    hide Compile;
    var copied := Copied(p[0]);
    PlaceholderStep(p);
    CopiesAreKept(p[0], WithPlaceholders(p[1..]));
    CompileCopies(p);
    NoPlaceholderAt(p);
    HasPlaceholderStep(p, 1);
    SameBehind(copied, CompilePathPattern(p[1..]), Compile(p[1..]));
  }

  /** What stands for a star by itself, or for any other character. */
  function Copied(c: char): string { if c == '*' then SOME_IN_SEGMENT else Quoted(c) }

  lemma CopiesAreKept(c: char, rest: string)
    requires c == '*' || Special(c)
    ensures ReplaceAll(Copied(c) + rest, DOUBLESTAR, DOT_STAR) == Copied(c) + ReplaceAll(rest, DOUBLESTAR, DOT_STAR)
  {
    ReplaceCopies(Copied(c), rest, DOUBLESTAR, DOT_STAR);
  }

  lemma CompileCopies(p: string)
    requires p != [] && !("**" <= p)
    ensures Compile(p) == Copied(p[0]) + Compile(p[1..])
  {}

  lemma NoPlaceholderAt(p: string)
    requires p != [] && p[0] != '_'
    ensures !ReadsAsPlaceholder(p[0..])
  {}

  lemma SameBehind(front: string, x: string, y: string)
    ensures front + x == front + y <==> x == y
  {
    assert (front + x)[|front|..] == x && (front + y)[|front|..] == y;
  }

  lemma OrdinaryCompiles(p: string)
    requires p != [] && p[0] != '*' && !Special(p[0]) && !ReadsAsPlaceholder(p)
    ensures CompilePathPattern(p) == [p[0]] + CompilePathPattern(p[1..])
  {
    var rest := WithPlaceholders(p[1..]);
    PlaceholderStep(p);
    PlaceholderGoesOn(1, p[1..]);
    GoesOnIsReading(p);
    assert DOUBLESTAR == ['_'] + DOUBLESTAR[1..];
    PrefixStep('_', DOUBLESTAR[1..], [p[0]] + rest);
    assert ([p[0]] + rest)[1..] == rest;
    ReplaceStep(rest, p[0], DOUBLESTAR, DOT_STAR);
  }

  lemma OrdinaryStep(p: string)
    requires p != [] && p[0] != '*' && !Special(p[0])
    ensures ReadsAsPlaceholder(p) ==> CompilePathPattern(p) != Compile(p) && HasPlaceholder(p)
    ensures !ReadsAsPlaceholder(p) ==>
              && (CompilePathPattern(p) == Compile(p) <==> CompilePathPattern(p[1..]) == Compile(p[1..]))
              && (HasPlaceholder(p) <==> HasPlaceholder(p[1..]))
  {
    var w, rest := WithPlaceholders(p), WithPlaceholders(p[1..]);
    PlaceholderStep(p);
    assert w == [p[0]] + rest;
    PlaceholderGoesOn(1, p[1..]);
    GoesOnIsReading(p);
    assert DOUBLESTAR == ['_'] + DOUBLESTAR[1..];
    PrefixStep('_', DOUBLESTAR[1..], w);
    assert w[1..] == rest;
    assert p[0..] == p;
    if ReadsAsPlaceholder(p) {
      assert CompilePathPattern(p)[0] == '.';
      assert Compile(p)[0] == '_';
    } else {
      OrdinaryCompiles(p);
      SameBehind([p[0]], CompilePathPattern(p[1..]), Compile(p[1..]));
      HasPlaceholderStep(p, 1);
    }
  }

  // -------------------------------------------------------------------------------------------------------------
  // What a pattern accepts
  // -------------------------------------------------------------------------------------------------------------

  /** The pattern's own meaning: `**` is any text of one line, a lone `*` some text of one segment, the rest is itself. */
  ghost predicate PatternAccepts(p: string, path: string)
    decreases |p|
  {
    if p == [] then path == []
    else if "**" <= p then exists k :: 0 <= k <= |path| && OneLine(path[..k]) && PatternAccepts(p[2..], path[k..])
    else if p[0] == '*' then exists k :: 1 <= k <= |path| && InSegment(path[..k]) && PatternAccepts(p[1..], path[k..])
    else path != [] && path[0] == p[0] && PatternAccepts(p[1..], path[1..])
  }

  lemma {:induction false} CompiledAccepts(p: string, path: string)
    ensures Accepts(Compile(p), path) <==> PatternAccepts(p, path)
    decreases |p|
  {
    if p != [] {
      if "**" <= p {
        DotStarAccepts(Compile(p[2..]), path);
        forall k | 0 <= k <= |path|
          ensures Accepts(Compile(p[2..]), path[k..]) <==> PatternAccepts(p[2..], path[k..])
        {
          CompiledAccepts(p[2..], path[k..]);
        }
      } else if p[0] == '*' {
        SomeInSegmentAccepts(Compile(p[1..]), path);
        forall k | 0 <= k <= |path|
          ensures Accepts(Compile(p[1..]), path[k..]) <==> PatternAccepts(p[1..], path[k..])
        {
          CompiledAccepts(p[1..], path[k..]);
        }
      } else {
        QuotedAccepts(p[0], Compile(p[1..]), path);
        if path != [] {
          CompiledAccepts(p[1..], path[1..]);
        }
      }
    }
  }

  /** The regular expression of a pattern that never reads as the placeholder accepts what the pattern means. */
  lemma PathPatternAccepts(p: string, path: string)
    requires !HasPlaceholder(p)
    ensures Accepts(CompilePathPattern(p), path) <==> PatternAccepts(p, path)
  {
    PassesCompileExactly(p);
    CompiledAccepts(p, path);
  }

  // -------------------------------------------------------------------------------------------------------------
  // A mistaken placeholder always shows
  // -------------------------------------------------------------------------------------------------------------

  /** A shortest path the pattern means: nothing for a `**`, one letter for a lone star. */
  function Shortest(p: string): string {
    if p == [] then []
    else if "**" <= p then Shortest(p[2..])
    else [if p[0] == '*' then 'x' else p[0]] + Shortest(p[1..])
  }

  /** The path is read off the pattern letter by letter, one for a lone star and none for a `**`. */
  predicate Fits(p: string, path: string)
    decreases |p|
  {
    if p == [] then path == []
    else if "**" <= p then Fits(p[2..], path)
    else path != [] && (p[0] == '*' || path[0] == p[0]) && Fits(p[1..], path[1..])
  }

  /** No path is shorter than the shortest, and one as short fits. */
  lemma {:induction false} ShortestIsLeast(p: string, path: string)
    requires PatternAccepts(p, path)
    ensures |path| >= |Shortest(p)| && (|path| == |Shortest(p)| ==> Fits(p, path))
    decreases |p|
  {
    if p != [] {
      if "**" <= p {
        var k :| 0 <= k <= |path| && OneLine(path[..k]) && PatternAccepts(p[2..], path[k..]);
        ShortestIsLeast(p[2..], path[k..]);
        assert k == 0 ==> path[k..] == path;
      } else if p[0] == '*' {
        var k :| 1 <= k <= |path| && InSegment(path[..k]) && PatternAccepts(p[1..], path[k..]);
        ShortestIsLeast(p[1..], path[k..]);
      } else {
        ShortestIsLeast(p[1..], path[1..]);
      }
    }
  }

  predicate IsPlain(text: string) { forall i :: 0 <= i < |text| ==> text[i] != '*' && !Special(text[i]) }

  /** Plain text in front of a pattern is copied. */
  lemma {:induction false} PlainInFront(text: string, p: string)
    requires IsPlain(text)
    ensures WithPlaceholders(text + p) == text + WithPlaceholders(p) && Shortest(text + p) == text + Shortest(p)
    decreases |text|
  {
    hide WithPlaceholders;
    hide Shortest;
    if text == [] {
      assert text + p == p && text + WithPlaceholders(p) == WithPlaceholders(p) && text + Shortest(p) == Shortest(p);
    } else {
      PlainInFront(text[1..], p);
      OneInFront(text[0], text[1..] + p);
      Onward(text, p);
      Onward(text, WithPlaceholders(p));
      Onward(text, Shortest(p));
    }
  }

  lemma OneInFront(c: char, p: string)
    requires c != '*' && !Special(c)
    ensures WithPlaceholders([c] + p) == [c] + WithPlaceholders(p) && Shortest([c] + p) == [c] + Shortest(p)
  {
    hide WithPlaceholders;
    var whole := [c] + p;
    assert whole[0] == c && whole[1..] == p && whole != [];
    assert !("**" <= whole) && Quoted(c) == [c];
    PlaceholderStep(whole);
  }

  lemma Onward(text: string, more: string)
    requires text != []
    ensures text + more == [text[0]] + (text[1..] + more)
  {}

  const CUT := "OUBLESTAR__"

  /** What a pattern that reads as the placeholder is taken for: a `.*`, and what is left after it. */
  lemma MistakenCompiles(front: string, p: string, q: string)
    requires (front == "_D" && p == "__DOUBLESTAR_**" + q) || (front == "D" && p == "__DOUBLESTAR**" + q)
    ensures CompilePathPattern(p) == DOT_STAR + (front + CompilePathPattern(CUT + q))
    ensures |Shortest(p)| == |front| + |Shortest(CUT + q)|
  {
    hide WithPlaceholders;
    hide ReplaceAll;
    hide Shortest;
    var lead := if front == "_D" then "__DOUBLESTAR_" else "__DOUBLESTAR";
    var w := WithPlaceholders(q);
    assert p == lead + ("**" + q);
    PlainInFront(lead, "**" + q);
    StarsInFront(q);
    PlainInFront(CUT, q);
    Regroup(front, lead, w);
    ReplaceMatch(front + (CUT + w), DOUBLESTAR, DOT_STAR);
    FrontIsCopied(front, CUT + w);
  }

  lemma StarsInFront(q: string)
    ensures WithPlaceholders("**" + q) == DOUBLESTAR + WithPlaceholders(q) && Shortest("**" + q) == Shortest(q)
  {
    hide WithPlaceholders;
    PlaceholderStep("**" + q);
    assert ("**" + q)[2..] == q;
  }

  lemma Regroup(front: string, lead: string, w: string)
    requires (front == "_D" && lead == "__DOUBLESTAR_") || (front == "D" && lead == "__DOUBLESTAR")
    ensures lead + (DOUBLESTAR + w) == DOUBLESTAR + (front + (CUT + w)) && |lead| == |front| + |CUT|
  {
    assert lead + DOUBLESTAR == DOUBLESTAR + (front + CUT);
    assert lead + (DOUBLESTAR + w) == (lead + DOUBLESTAR) + w;
    assert DOUBLESTAR + (front + (CUT + w)) == (DOUBLESTAR + (front + CUT)) + w;
  }

  lemma FrontIsCopied(front: string, rest: string)
    requires front == "_D" || front == "D"
    ensures ReplaceAll(front + rest, DOUBLESTAR, DOT_STAR) == front + ReplaceAll(rest, DOUBLESTAR, DOT_STAR)
  {
    var d := ['D'] + rest;
    assert d[0] == 'D' && DOUBLESTAR[0] == '_';
    ReplaceStep(rest, 'D', DOUBLESTAR, DOT_STAR);
    if front == "_D" {
      assert (['_'] + d)[1] == 'D' && DOUBLESTAR[1] == '_';
      ReplaceStep(d, '_', DOUBLESTAR, DOT_STAR);
      assert front + rest == ['_'] + d;
    } else {
      assert front + rest == d;
    }
  }

  /** The expression accepts plain text in front as itself, and nothing for a `.*`. */
  lemma {:induction false} AcceptedInFront(text: string, re: string, path: string)
    requires IsPlain(text) && Accepts(re, path)
    ensures Accepts(text + re, text + path)
    decreases |text|
  {
    hide Accepts;
    if text == [] {
      assert text + re == re && text + path == path;
    } else {
      AcceptedInFront(text[1..], re, path);
      Onward(text, re);
      Onward(text, path);
      OneAccepted(text[0], text[1..] + re, text[1..] + path);
    }
  }

  lemma OneAccepted(c: char, re: string, path: string)
    requires c != '*' && !Special(c) && Accepts(re, path)
    ensures Accepts([c] + re, [c] + path)
  {
    hide Accepts;
    QuotedAccepts(c, re, [c] + path);
    assert ([c] + path)[1..] == path;
  }

  lemma AcceptedAfterDotStar(re: string, path: string)
    requires Accepts(re, path)
    ensures Accepts(DOT_STAR + re, path)
  {
    DotStarAccepts(re, path);
    assert path[..0] == [] && path[0..] == path;
  }

  /** A path the expression accepts, no longer than the shortest; with a mistaken placeholder one that does not fit. */
  lemma {:induction false} ShortAccepted(p: string) returns (path: string)
    ensures Accepts(CompilePathPattern(p), path) && |path| <= |Shortest(p)|
    ensures HasPlaceholder(p) ==> |path| < |Shortest(p)| || !Fits(p, path)
    decreases |p|
  {
    hide CompilePathPattern;
    hide HasPlaceholder;
    hide Accepts;
    hide ReadsAsPlaceholder;
    if p == [] {
      path := [];
      NothingAccepted();
    } else if "**" <= p {
      path := ShortAccepted(p[2..]);
      StarsCompile(p);
      AcceptedAfterDotStar(CompilePathPattern(p[2..]), path);
    } else if p[0] == '*' || Special(p[0]) || !ReadsAsPlaceholder(p) {
      var rest := ShortAccepted(p[1..]);
      path := [if p[0] == '*' then 'x' else p[0]] + rest;
      OneCompiles(p, rest);
      assert path[1..] == rest;
    } else {
      path := MistakenAccepted(p);
    }
  }

  lemma NothingAccepted()
    ensures Accepts(CompilePathPattern(""), "") && !HasPlaceholder("")
  {}

  lemma StarsCompile(p: string)
    requires "**" <= p
    ensures CompilePathPattern(p) == DOT_STAR + CompilePathPattern(p[2..])
    ensures HasPlaceholder(p) <==> HasPlaceholder(p[2..])
  {
    StarsStep(p);
    PlaceholderStep(p);
    ReplaceMatch(WithPlaceholders(p[2..]), DOUBLESTAR, DOT_STAR);
  }

  lemma OneCompiles(p: string, rest: string)
    requires p != [] && !("**" <= p) && (p[0] == '*' || Special(p[0]) || !ReadsAsPlaceholder(p))
    requires Accepts(CompilePathPattern(p[1..]), rest)
    ensures Accepts(CompilePathPattern(p), [if p[0] == '*' then 'x' else p[0]] + rest)
    ensures HasPlaceholder(p) <==> HasPlaceholder(p[1..])
  {
    hide WithPlaceholders;
    hide ReplaceAll;
    hide Accepts;
    hide HasPlaceholder;
    hide ReadsAsPlaceholder;
    var c, re := p[0], CompilePathPattern(p[1..]);
    if c == '*' || Special(c) {
      CopiedStep(p);
      PlaceholderStep(p);
      CopiesAreKept(c, WithPlaceholders(p[1..]));
    } else {
      OrdinaryStep(p);
      OrdinaryCompiles(p);
    }
    if c == '*' {
      var path := ['x'] + rest;
      SomeInSegmentAccepts(re, path);
      assert path[..1] == "x" && path[1..] == rest;
    } else {
      var path := [c] + rest;
      QuotedAccepts(c, re, path);
      assert path[1..] == rest;
    }
  }

  lemma {:induction false} MistakenAccepted(p: string) returns (path: string)
    requires ReadsAsPlaceholder(p)
    ensures Accepts(CompilePathPattern(p), path) && |path| <= |Shortest(p)|
    ensures |path| < |Shortest(p)| || !Fits(p, path)
    decreases |p|, 0
  {
    hide CompilePathPattern;
    hide Accepts;
    hide HasPlaceholder;
    if DOUBLESTAR <= p {
      var q := p[14..];
      path := ShortAccepted(q);
      WholeCompiles(p);
      AcceptedAfterDotStar(CompilePathPattern(q), path);
    } else {
      var front, lead := "_D", "__DOUBLESTAR_**";
      if !(lead <= p) {
        front, lead := "D", "__DOUBLESTAR**";
      }
      var q := p[|lead|..];
      assert p == lead + q;
      var rest := ShortAccepted(CUT + q);
      path := front + rest;
      MistakenCompiles(front, p, q);
      AcceptedInFront(front, CompilePathPattern(CUT + q), rest);
      AcceptedAfterDotStar(front + CompilePathPattern(CUT + q), path);
      UnderscoresDoNotFit(p, path);
    }
  }

  lemma WholeCompiles(p: string)
    requires DOUBLESTAR <= p
    ensures CompilePathPattern(p) == DOT_STAR + CompilePathPattern(p[14..])
    ensures |Shortest(p)| == 14 + |Shortest(p[14..])|
  {
    hide WithPlaceholders;
    hide Shortest;
    var q := p[14..];
    assert p == DOUBLESTAR + q;
    PlainInFront(DOUBLESTAR, q);
    ReplaceMatch(WithPlaceholders(q), DOUBLESTAR, DOT_STAR);
  }

  lemma UnderscoresDoNotFit(p: string, path: string)
    requires "__" <= p && |path| >= 1 && (path[0] == 'D' || (|path| >= 2 && path[1] == 'D'))
    ensures !Fits(p, path)
  {
    assert p[0] == '_' && p[1] == '_' && p[1..][0] == '_';
    assert |path| >= 2 ==> path[1..][0] == path[1];
  }

  /**
   * Main result: the expression accepts exactly the paths the pattern means, if and only if no text of the pattern reads
   * as the placeholder; otherwise some path tells them apart.
   */
  lemma AcceptanceExactly(p: string)
    ensures (forall path :: Accepts(CompilePathPattern(p), path) <==> PatternAccepts(p, path)) <==> !HasPlaceholder(p)
  {
    hide CompilePathPattern;
    hide Accepts;
    hide PatternAccepts;
    hide HasPlaceholder;
    if HasPlaceholder(p) {
      var path := ShortAccepted(p);
      if PatternAccepts(p, path) {
        ShortestIsLeast(p, path);
      }
    } else {
      forall path
        ensures Accepts(CompilePathPattern(p), path) <==> PatternAccepts(p, path)
      {
        PathPatternAccepts(p, path);
      }
    }
  }
}
