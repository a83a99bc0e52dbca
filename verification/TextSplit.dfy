/** `text.split(separator)` for a separator of one character, and `parts.join(separator)`. */
module TextSplit {
  function SplitOn(separator: char, s: string): (segments: seq<string>)
    ensures segments != [] && forall p :: p in segments ==> separator !in p
    decreases |s|
  {
    if s == [] then [[]]
    else
      var rest := SplitOn(separator, s[1..]);
      assert rest[0] in rest;
      if s[0] == separator then [[]] + rest else [[s[0]] + rest[0]] + rest[1..]
  }

  /** A text without the separator is one segment, and one before a separator is the first. */
  lemma {:induction false} FirstSegment(separator: char, front: string, rest: string)
    requires separator !in front
    ensures SplitOn(separator, front) == [front]
    ensures SplitOn(separator, front + [separator] + rest) == [front] + SplitOn(separator, rest)
    decreases |front|
  {
    var whole := front + [separator] + rest;
    if front == [] {
      assert whole[1..] == rest;
    } else {
      FirstSegment(separator, front[1..], rest);
      assert front == [front[0]] + front[1..];
      assert whole[1..] == front[1..] + [separator] + rest;
    }
  }

  function Join(parts: seq<string>, separator: string): string {
    if parts == [] then ""
    else if |parts| == 1 then parts[0]
    else parts[0] + separator + Join(parts[1..], separator)
  }

  lemma JoinUnfolds(parts: seq<string>, separator: string)
    requires parts != []
    ensures Join(parts, separator)
         == if |parts| == 1 then parts[0] else parts[0] + separator + Join(parts[1..], separator)
  {}

  lemma {:induction false} JoinConcat(xs: seq<string>, ys: seq<string>, separator: string)
    requires xs != [] && ys != []
    ensures Join(xs + ys, separator) == Join(xs, separator) + separator + Join(ys, separator)
    decreases |xs|
  {
    assert (xs + ys)[0] == xs[0] && (xs + ys)[1..] == xs[1..] + ys;
    JoinUnfolds(xs + ys, separator);
    if |xs| > 1 {
      JoinConcat(xs[1..], ys, separator);
      JoinUnfolds(xs, separator);
      hide Join;
      Regroup(xs[0], separator, Join(xs[1..], separator), Join(ys, separator));
    } else {
      assert xs[1..] + ys == ys;
    }
  }

  lemma Regroup(a: string, separator: string, b: string, c: string)
    ensures a + separator + (b + separator + c) == a + separator + b + separator + c
  {}
}
