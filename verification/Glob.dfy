/**
 * The gate's globs (`globToRegExp`, scripts/gate.ts): one walk over the glob writes the regular expression. The
 * reference reads glob and path segment by segment.
 */
module Glob {
  import opened Regex
  import opened TextSplit

  /** The text between `^` and `$`, by the first of the four cases that fits. */
  function Compile(glob: string): string {
    if glob == [] then []
    else if "**/" <= glob then SEGMENTS + Compile(glob[3..])
    else if "**" <= glob then DOT_STAR + Compile(glob[2..])
    else if glob[0] == '*' then ANY_IN_SEGMENT + Compile(glob[1..])
    else Quoted(glob[0]) + Compile(glob[1..])
  }

  method GlobToRegExp(glob: string) returns (re: string)
    ensures re == Compile(glob)
  {
    hide Compile;
    var source := "";
    var i := 0;
    assert glob[0..] == glob;
    while i < |glob|
      invariant 0 <= i <= |glob|
      invariant source + Compile(glob[i..]) == Compile(glob)
    {
      CompileAt(glob, i);
      ghost var before := source;
      ghost var piece := PieceAt(glob, i);
      if "**/" <= glob[i..] {
        source := source + SEGMENTS;
        i := i + 2;
      } else if "**" <= glob[i..] {
        source := source + DOT_STAR;
        i := i + 1;
      } else if glob[i] == '*' {
        source := source + ANY_IN_SEGMENT;
      } else {
        source := source + Quoted(glob[i]);
      }
      i := i + 1;
      assert source == before + piece;
      Regrouped(before, piece, Compile(glob[i..]));
    }
    NothingCompiles(glob);
    re := source;
  }

  /** What the walk writes at `i`. */
  function PieceAt(glob: string, i: nat): string
    requires i < |glob|
  {
    if "**/" <= glob[i..] then SEGMENTS
    else if "**" <= glob[i..] then DOT_STAR
    else if glob[i] == '*' then ANY_IN_SEGMENT
    else Quoted(glob[i])
  }

  /** What the walk writes at `i`, and where it goes on. */
  lemma CompileAt(glob: string, i: nat)
    requires i < |glob|
    ensures "**/" <= glob[i..] ==> Compile(glob[i..]) == PieceAt(glob, i) + Compile(glob[i + 3..])
    ensures !("**/" <= glob[i..]) && "**" <= glob[i..] ==> Compile(glob[i..]) == PieceAt(glob, i) + Compile(glob[i + 2..])
    ensures !("**" <= glob[i..]) ==> Compile(glob[i..]) == PieceAt(glob, i) + Compile(glob[i + 1..])
  {
    assert "**/"[..2] == "**";
    assert "**/" <= glob[i..] ==> glob[i..][3..] == glob[i + 3..];
    assert "**" <= glob[i..] ==> glob[i..][2..] == glob[i + 2..];
    assert glob[i..][1..] == glob[i + 1..];
  }

  lemma Regrouped(a: string, b: string, c: string)
    ensures (a + b) + c == a + (b + c)
  {}

  lemma NothingCompiles(glob: string)
    ensures Compile(glob[|glob|..]) == [] && forall s: string :: s + Compile(glob[|glob|..]) == s
  {}

  // -------------------------------------------------------------------------------------------------------------
  // Segments
  // -------------------------------------------------------------------------------------------------------------

  function Join(segments: seq<string>): string
    requires segments != []
  {
    TextSplit.Join(segments, "/")
  }

  predicate Segment(s: string) { '/' !in s }

  predicate HasDoubleStar(g: string) { exists i :: 0 <= i < |g| - 1 && g[i] == '*' && g[i + 1] == '*' }

  /** The segments of a glob whose `**` are whole segments. */
  predicate GlobSegments(gs: seq<string>) {
    forall g :: g in gs ==> Segment(g) && (g == "**" || !HasDoubleStar(g))
  }

  predicate PathSegments(ps: seq<string>) { forall p :: p in ps ==> Segment(p) && OneLine(p) }

  /** One segment: `*` takes any part of it, the rest is itself. */
  ghost predicate SegmentMatches(g: string, p: string)
    decreases |g|
  {
    if g == [] then p == []
    else if g[0] == '*' then exists k :: 0 <= k <= |p| && SegmentMatches(g[1..], p[k..])
    else p != [] && p[0] == g[0] && SegmentMatches(g[1..], p[1..])
  }

  /** Segment by segment: a final `**` takes one or more, any other zero or more. */
  ghost predicate Matches(gs: seq<string>, ps: seq<string>)
    decreases |gs|
  {
    if gs == [] then ps == []
    else if gs == ["**"] then ps != []
    else if gs[0] == "**" then exists k :: 0 <= k <= |ps| && Matches(gs[1..], ps[k..])
    else ps != [] && SegmentMatches(gs[0], ps[0]) && Matches(gs[1..], ps[1..])
  }

  lemma {:induction false} NothingMatchesNoSegment(gs: seq<string>)
    requires gs != []
    ensures !Matches(gs, [])
    decreases |gs|
  {
    if gs != ["**"] && gs[0] == "**" {
      NothingMatchesNoSegment(gs[1..]);
      var none: seq<string> := [];
      assert none[0..] == none;
    }
  }

  // -------------------------------------------------------------------------------------------------------------
  // Joined paths
  // -------------------------------------------------------------------------------------------------------------

  /** Whether `s` goes on with `/` and then `rest` after its first segment `front`. */
  predicate SplitsAt(s: string, k: int) { 0 <= k < |s| && s[k] == '/' && InSegment(s[..k]) }

  lemma JoinSplits(ps: seq<string>)
    requires |ps| > 1 && forall p :: p in ps ==> Segment(p)
    ensures SplitsAt(Join(ps), |ps[0]|)
    ensures Join(ps)[..|ps[0]|] == ps[0] && Join(ps)[|ps[0]| + 1..] == Join(ps[1..])
  {
    FirstSegmentHasNoSlash(ps);
    var front, rest := ps[0], Join(ps[1..]);
    assert Join(ps) == front + "/" + rest;
    assert (front + "/" + rest)[..|front|] == front;
    assert (front + "/" + rest)[|front| + 1..] == rest;
  }

  lemma NoSplitInSegment(s: string)
    requires InSegment(s)
    ensures forall k :: !SplitsAt(s, k)
  {}

  lemma FirstSlashIsOne(s: string, j: int, k: int)
    requires SplitsAt(s, j) && SplitsAt(s, k)
    ensures j == k
  {
    assert forall i :: 0 <= i < k ==> s[..k][i] == s[i];
    assert forall i :: 0 <= i < j ==> s[..j][i] == s[i];
  }

  lemma FirstSegmentHasNoSlash(ps: seq<string>)
    requires ps != [] && forall p :: p in ps ==> Segment(p)
    ensures InSegment(ps[0])
  {
    assert ps[0] in ps;
    assert forall i :: 0 <= i < |ps[0]| ==> ps[0][i] in ps[0];
  }

  /** Behind every `/` of a joined path stand the segments from some later one on. */
  lemma {:induction false} BehindASlash(ps: seq<string>, k: nat) returns (j: nat)
    requires ps != [] && (forall p :: p in ps ==> Segment(p)) && k < |Join(ps)| && Join(ps)[k] == '/'
    ensures 1 <= j < |ps| && Join(ps)[k + 1..] == Join(ps[j..])
    decreases |ps|
  {
    var s := Join(ps);
    FirstSegmentHasNoSlash(ps);
    if |ps| > 1 {
      JoinSplits(ps);
      var n := |ps[0]|;
      assert forall i :: 0 <= i < n ==> s[i] == s[..n][i];
      assert k >= n;
      if k == n {
        j := 1;
      } else {
        assert s[n + 1..][k - n - 1] == s[k];
        var i := BehindASlash(ps[1..], k - n - 1);
        j := i + 1;
        assert ps[1..][i..] == ps[j..];
        assert s[n + 1..][k - n - 1 + 1..] == s[k + 1..];
      }
    }
  }

  /** And before the segments from any later one on stands a `/`. */
  lemma {:induction false} SlashBefore(ps: seq<string>, j: nat) returns (k: nat)
    requires 1 <= j < |ps|
    ensures k < |Join(ps)| && Join(ps)[k] == '/' && Join(ps)[k + 1..] == Join(ps[j..])
    decreases |ps|
  {
    var s, n := Join(ps), |ps[0]|;
    assert s == ps[0] + ("/" + Join(ps[1..])) && s[n] == '/' && s[n + 1..] == Join(ps[1..]);
    if j == 1 {
      k := n;
    } else {
      var i := SlashBefore(ps[1..], j - 1);
      k := n + 1 + i;
      assert ps[1..][j - 1..] == ps[j..];
      assert s[n + 1..][i] == s[k] && s[n + 1..][i + 1..] == s[k + 1..];
    }
  }

  lemma {:induction false} JoinedOneLine(ps: seq<string>)
    requires ps != [] && PathSegments(ps)
    ensures OneLine(Join(ps))
    decreases |ps|
  {
    assert ps[0] in ps;
    if |ps| > 1 {
      JoinedOneLine(ps[1..]);
    }
  }

  // -------------------------------------------------------------------------------------------------------------
  // One segment of the glob
  // -------------------------------------------------------------------------------------------------------------

  lemma NoDoubleStarStep(g: string)
    requires g != [] && !HasDoubleStar(g)
    ensures !HasDoubleStar(g[1..])
    ensures |g| > 1 && g[0] == '*' ==> g[1] != '*'
  {
    forall i | 0 <= i < |g[1..]| - 1
      ensures !(g[1..][i] == '*' && g[1..][i + 1] == '*')
    {
      assert g[1..][i] == g[i + 1] && g[1..][i + 1] == g[i + 1 + 1];
    }
  }

  /** What is compiled after a segment: nothing at the end of the glob, a `/` and the rest otherwise. */
  lemma CompileStep(g: string, tail: string)
    requires g != [] && Segment(g) && !HasDoubleStar(g) && (tail == [] || tail[0] == '/')
    ensures Compile(g + tail) == (if g[0] == '*' then ANY_IN_SEGMENT else Quoted(g[0])) + Compile(g[1..] + tail)
    ensures g[0] != '/'
  {
    NoDoubleStarStep(g);
    assert g[0] in g;
    assert (g + tail)[1..] == g[1..] + tail;
    var whole := g + tail;
    assert |whole| > 1 ==> whole[1] == if |g| > 1 then g[1] else tail[0];
    assert |whole| > 1 && whole[0] == '*' ==> whole[1] != '*';
    assert "**"[0] == '*' && "**"[1] == '*';
    assert !("**" <= whole);
    assert "**/"[..2] == "**";
    assert !("**/" <= whole);
  }

  /** The last segment of a glob takes a whole path of one segment. */
  lemma {:induction false} LastSegmentAccepts(g: string, s: string)
    requires Segment(g) && !HasDoubleStar(g)
    ensures Accepts(Compile(g), s) <==> InSegment(s) && SegmentMatches(g, s)
    decreases |g|
  {
    if g != [] {
      CompileStep(g, []);
      assert g + [] == g && g[1..] + [] == g[1..];
      NoDoubleStarStep(g);
      if g[0] == '*' {
        AnyInSegmentAccepts(Compile(g[1..]), s);
        forall k | 0 <= k <= |s|
          ensures Accepts(Compile(g[1..]), s[k..]) <==> InSegment(s[k..]) && SegmentMatches(g[1..], s[k..])
        {
          LastSegmentAccepts(g[1..], s[k..]);
        }
        forall k | 0 <= k <= |s|
          ensures InSegment(s) <==> InSegment(s[..k]) && InSegment(s[k..])
        {
          InSegmentSplit(s, k);
        }
      } else {
        QuotedAccepts(g[0], Compile(g[1..]), s);
        if s != [] && s[0] == g[0] {
          LastSegmentAccepts(g[1..], s[1..]);
          assert g[0] in g;
          InSegmentSplit(s, 1);
        }
      }
    }
  }

  lemma InSegmentSplit(s: string, k: nat)
    requires k <= |s|
    ensures InSegment(s) <==> InSegment(s[..k]) && InSegment(s[k..])
  {
    assert s == s[..k] + s[k..];
  }

  /** An earlier segment of a glob takes the path's first one, and the rest of the glob what follows its `/`. */
  lemma {:induction false} EarlierSegmentAccepts(g: string, t: string, s: string)
    requires Segment(g) && !HasDoubleStar(g)
    ensures Accepts(Compile(g + "/" + t), s) <==>
            exists k :: SplitsAt(s, k) && SegmentMatches(g, s[..k]) && Accepts(Compile(t), s[k + 1..])
    decreases |g|
  {
    if g == [] {
      assert g + "/" + t == "/" + t && ("/" + t)[1..] == t && Compile("/" + t) == Quoted('/') + Compile(t);
      QuotedAccepts('/', Compile(t), s);
      EmptySegmentTakesASlash(t, s);
    } else {
      CompileStep(g, "/" + t);
      assert g + "/" + t == g + ("/" + t) && g[1..] + ("/" + t) == g[1..] + "/" + t;
      NoDoubleStarStep(g);
      if g[0] == '*' {
        AnyInSegmentAccepts(Compile(g[1..] + "/" + t), s);
        StarThenSegment(g, t, s);
      } else {
        QuotedAccepts(g[0], Compile(g[1..] + "/" + t), s);
        if s != [] && s[0] == g[0] {
          EarlierSegmentAccepts(g[1..], t, s[1..]);
          LetterThenSegment(g, t, s);
        } else {
          forall k | SplitsAt(s, k)
            ensures !SegmentMatches(g, s[..k])
          {}
        }
      }
    }
  }

  lemma EmptySegmentTakesASlash(t: string, s: string)
    ensures (s != [] && s[0] == '/' && Accepts(Compile(t), s[1..])) <==>
            exists k :: SplitsAt(s, k) && SegmentMatches([], s[..k]) && Accepts(Compile(t), s[k + 1..])
  {
    if s != [] && s[0] == '/' {
      assert SplitsAt(s, 0) && s[..0] == [] && s[0 + 1..] == s[1..];
    }
    forall k | SplitsAt(s, k) && SegmentMatches([], s[..k])
      ensures k == 0
    {
      assert s[..k] == [];
    }
  }

  lemma LetterThenSegment(g: string, t: string, s: string)
    requires g != [] && g[0] != '*' && g[0] != '/' && s != [] && s[0] == g[0]
    ensures (exists k :: SplitsAt(s, k) && SegmentMatches(g, s[..k]) && Accepts(Compile(t), s[k + 1..])) <==>
            (exists k :: SplitsAt(s[1..], k) && SegmentMatches(g[1..], s[1..][..k]) && Accepts(Compile(t), s[1..][k + 1..]))
  {
    forall k | SplitsAt(s, k) && SegmentMatches(g, s[..k]) && Accepts(Compile(t), s[k + 1..])
      ensures exists j :: SplitsAt(s[1..], j) && SegmentMatches(g[1..], s[1..][..j]) && Accepts(Compile(t), s[1..][j + 1..])
    {
      SplitsLater(s, 1, k);
      assert SplitsAt(s[1..], k - 1);
    }
    forall k | SplitsAt(s[1..], k) && SegmentMatches(g[1..], s[1..][..k]) && Accepts(Compile(t), s[1..][k + 1..])
      ensures exists j :: SplitsAt(s, j) && SegmentMatches(g, s[..j]) && Accepts(Compile(t), s[j + 1..])
    {
      SplitsLater(s, 1, k + 1);
      assert SplitsAt(s, k + 1);
    }
  }

  lemma {:induction false} StarThenSegment(g: string, t: string, s: string)
    requires Segment(g) && !HasDoubleStar(g) && g != [] && g[0] == '*'
    ensures (exists n :: 0 <= n <= |s| && InSegment(s[..n]) && Accepts(Compile(g[1..] + "/" + t), s[n..])) <==>
            exists k :: SplitsAt(s, k) && SegmentMatches(g, s[..k]) && Accepts(Compile(t), s[k + 1..])
    decreases |g|, 1
  {
    hide Accepts;
    hide SegmentMatches;
    forall n | 0 <= n <= |s| && InSegment(s[..n]) && Accepts(Compile(g[1..] + "/" + t), s[n..])
      ensures exists k :: SplitsAt(s, k) && SegmentMatches(g, s[..k]) && Accepts(Compile(t), s[k + 1..])
    {
      var k := StarTaken(g, t, s, n);
    }
    forall k | SplitsAt(s, k) && SegmentMatches(g, s[..k]) && Accepts(Compile(t), s[k + 1..])
      ensures exists n :: 0 <= n <= |s| && InSegment(s[..n]) && Accepts(Compile(g[1..] + "/" + t), s[n..])
    {
      var n := StarTakes(g, t, s, k);
    }
  }

  lemma {:induction false} StarTaken(g: string, t: string, s: string, n: nat) returns (k: nat)
    requires Segment(g) && !HasDoubleStar(g) && g != [] && g[0] == '*'
    requires n <= |s| && InSegment(s[..n]) && Accepts(Compile(g[1..] + "/" + t), s[n..])
    ensures SplitsAt(s, k) && SegmentMatches(g, s[..k]) && Accepts(Compile(t), s[k + 1..])
    decreases |g|, 0
  {
    hide Accepts;
    hide Compile;
    NoDoubleStarStep(g);
    EarlierSegmentAccepts(g[1..], t, s[n..]);
    var j :| SplitsAt(s[n..], j) && SegmentMatches(g[1..], s[n..][..j]) && Accepts(Compile(t), s[n..][j + 1..]);
    k := n + j;
    SplitsLater(s, n, k);
    assert SegmentMatches(g[1..], s[..k][n..]);
  }

  /** Where the text from `n` on splits, and where the whole does. */
  lemma SplitsLater(s: string, n: nat, k: nat)
    requires n <= k < |s|
    ensures SplitsAt(s, k) <==> SplitsAt(s[n..], k - n) && InSegment(s[..n])
    ensures s[n..][..k - n] == s[..k][n..] && s[n..][k - n + 1..] == s[k + 1..]
  {
    InSegmentSplit(s[..k], n);
    assert s[..k][..n] == s[..n] && s[n..][..k - n] == s[..k][n..];
  }

  lemma {:induction false} StarTakes(g: string, t: string, s: string, k: nat) returns (n: nat)
    requires Segment(g) && !HasDoubleStar(g) && g != [] && g[0] == '*'
    requires SplitsAt(s, k) && SegmentMatches(g, s[..k]) && Accepts(Compile(t), s[k + 1..])
    ensures n <= |s| && InSegment(s[..n]) && Accepts(Compile(g[1..] + "/" + t), s[n..])
    decreases |g|, 0
  {
    hide Accepts;
    hide Compile;
    NoDoubleStarStep(g);
    n :| 0 <= n <= |s[..k]| && SegmentMatches(g[1..], s[..k][n..]);
    SplitsLater(s, n, k);
    EarlierSegmentAccepts(g[1..], t, s[n..]);
  }

  // -------------------------------------------------------------------------------------------------------------
  // The whole glob
  // -------------------------------------------------------------------------------------------------------------

  lemma DoubleStarCompiles(t: string)
    ensures Compile("**/" + t) == SEGMENTS + Compile(t)
    ensures Compile("**") == DOT_STAR
  {
    assert ("**/" + t)[3..] == t;
    assert "**"[2..] == [] && DOT_STAR + [] == DOT_STAR;
  }

  /**
   * Main result: for every glob whose `**` are whole segments and every path of one line, the regular expression accepts
   * the path exactly when the glob matches it segment by segment.
   */
  lemma {:induction false} GlobAcceptsExactly(gs: seq<string>, ps: seq<string>)
    requires gs != [] && ps != [] && GlobSegments(gs) && PathSegments(ps)
    ensures Accepts(Compile(Join(gs)), Join(ps)) <==> Matches(gs, ps)
    decreases |gs|
  {
    var s := Join(ps);
    assert gs[0] in gs;
    JoinedOneLine(ps);
    if gs == ["**"] {
      DoubleStarCompiles([]);
      DotStarAccepts([], s);
      assert DOT_STAR + [] == DOT_STAR && s[..|s|] == s && s[|s|..] == [];
    } else if |gs| == 1 {
      LastSegmentAccepts(gs[0], s);
      OneSegmentPath(ps);
      assert gs[1..] == [];
    } else {
      var t := Join(gs[1..]);
      assert Join(gs) == gs[0] + "/" + t;
      if gs[0] == "**" {
        DoubleStarAcceptsExactly(gs, ps);
      } else {
        EarlierSegmentAccepts(gs[0], t, s);
        if |ps| == 1 {
          OneSegmentPath(ps);
          NothingMatchesNoSegment(gs[1..]);
          assert ps[1..] == [];
          NoSplitInSegment(s);
        } else {
          JoinSplits(ps);
          GlobAcceptsExactly(gs[1..], ps[1..]);
          forall k | SplitsAt(s, k)
            ensures k == |ps[0]|
          {
            FirstSlashIsOne(s, k, |ps[0]|);
          }
        }
      }
    }
  }

  lemma OneSegmentPath(ps: seq<string>)
    requires ps != [] && PathSegments(ps)
    ensures InSegment(Join(ps)) <==> |ps| == 1
    ensures |ps| == 1 <==> ps[1..] == []
  {
    assert ps[0] in ps;
    if |ps| > 1 {
      JoinSplits(ps);
      assert Join(ps)[|ps[0]|] == '/';
    } else {
      forall i | 0 <= i < |ps[0]|
        ensures ps[0][i] != '/'
      {
        assert ps[0][i] in ps[0];
      }
    }
  }

  lemma {:induction false} DoubleStarAcceptsExactly(gs: seq<string>, ps: seq<string>)
    requires |gs| > 1 && gs[0] == "**" && ps != [] && GlobSegments(gs) && PathSegments(ps)
    ensures Accepts(Compile(Join(gs)), Join(ps)) <==> Matches(gs, ps)
    decreases |gs|, 0
  {
    var s, t := Join(ps), Join(gs[1..]);
    assert Join(gs) == "**/" + t;
    DoubleStarCompiles(t);
    SegmentsAccepts(Compile(t), s);
    JoinedOneLine(ps);
    NothingMatchesNoSegment(gs[1..]);
    if Matches(gs, ps) {
      var j :| 0 <= j <= |ps| && Matches(gs[1..], ps[j..]);
      assert j < |ps| by {
        assert ps[|ps|..] == [];
      }
      GlobAcceptsExactly(gs[1..], ps[j..]);
      if j == 0 {
        assert ps[0..] == ps;
      } else {
        var k := SlashBefore(ps, j);
        assert OneLine(s[..k]);
      }
    }
    if Accepts(Compile(t), s) {
      GlobAcceptsExactly(gs[1..], ps);
      assert ps[0..] == ps;
    }
    forall k | 0 <= k < |s| && s[k] == '/' && Accepts(Compile(t), s[k + 1..])
      ensures Matches(gs, ps)
    {
      var j := BehindASlash(ps, k);
      GlobAcceptsExactly(gs[1..], ps[j..]);
    }
  }

  /** The segments of a text: what stands between its slashes. */
  function Split(s: string): (segments: seq<string>)
    ensures segments != [] && forall p :: p in segments ==> Segment(p)
  {
    SplitOn('/', s)
  }

  lemma {:induction false} SplitJoins(s: string)
    ensures Join(Split(s)) == s
    decreases |s|
  {
    if s != [] {
      SplitJoins(s[1..]);
      var rest := Split(s[1..]);
      var segments := Split(s);
      assert s == [s[0]] + s[1..];
      if s[0] == '/' {
        assert segments[1..] == rest;
      } else if |rest| > 1 {
        assert segments[1..] == rest[1..];
        assert Join(segments) == ([s[0]] + rest[0]) + "/" + Join(rest[1..]);
      }
    }
  }

  lemma {:induction false} SplitOneLine(s: string)
    requires OneLine(s)
    ensures PathSegments(Split(s))
    decreases |s|
  {
    if s != [] {
      assert !LineEnd(s[0]) && forall i :: 0 <= i < |s[1..]| ==> s[1..][i] == s[i + 1];
      SplitOneLine(s[1..]);
      var rest := Split(s[1..]);
      assert rest[0] in rest;
    }
  }

  /** `GlobAcceptsExactly` on texts: the glob as it is written, the path as it is tested. */
  lemma GlobTextAcceptsExactly(glob: string, path: string)
    requires GlobSegments(Split(glob)) && OneLine(path)
    ensures Accepts(Compile(glob), path) <==> Matches(Split(glob), Split(path))
  {
    SplitJoins(glob);
    SplitJoins(path);
    SplitOneLine(path);
    GlobAcceptsExactly(Split(glob), Split(path));
  }
}
