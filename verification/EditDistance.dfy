/**
 * The optimal string alignment distance of packages/config/src/adapter-names.ts and the suggestion drawn from it.
 *
 * The reference is independent of the table: an edit script rewrites a text from left to right, so no substring is
 * edited twice, and the distance is the least cost of a script between the two texts.
 */
module EditDistance {
  import opened TextOrder
  import opened Wrappers

  // -------------------------------------------------------------------------------------------------------------
  // Edit scripts
  // -------------------------------------------------------------------------------------------------------------

  datatype Edit =
    | Keep(c: char)
    | Insert(c: char)
    | Delete(c: char)
    | Substitute(c: char, d: char)
    | Swap(c: char, d: char)

  /** The piece of the source text an edit reads. */
  function Reads(e: Edit): string {
    match e
    case Keep(c) => [c]
    case Insert(_) => []
    case Delete(c) => [c]
    case Substitute(c, _) => [c]
    case Swap(c, d) => [c, d]
  }

  /** The piece of the target text an edit writes. */
  function Writes(e: Edit): string {
    match e
    case Keep(c) => [c]
    case Insert(c) => [c]
    case Delete(_) => []
    case Substitute(_, d) => [d]
    case Swap(c, d) => [d, c]
  }

  function Source(script: seq<Edit>): string {
    if script == [] then [] else Source(script[..|script| - 1]) + Reads(script[|script| - 1])
  }

  function Target(script: seq<Edit>): string {
    if script == [] then [] else Target(script[..|script| - 1]) + Writes(script[|script| - 1])
  }

  function Cost(script: seq<Edit>): nat {
    if script == [] then 0 else Cost(script[..|script| - 1]) + if script[|script| - 1].Keep? then 0 else 1
  }

  ghost predicate Rewrites(script: seq<Edit>, a: string, b: string) { Source(script) == a && Target(script) == b }

  /** `n` is the least cost of a script from `a` to `b`. */
  ghost predicate IsLeastCost(n: nat, a: string, b: string) {
    && (exists script :: Rewrites(script, a, b) && Cost(script) == n)
    && (forall script :: Rewrites(script, a, b) ==> n <= Cost(script))
  }

  /** The optimal string alignment distance. */
  ghost function Distance(a: string, b: string): (n: nat)
    ensures IsLeastCost(n, a, b)
  {
    LeastCostExists(a, b);
    var n :| IsLeastCost(n, a, b);
    n
  }

  lemma LeastCostExists(a: string, b: string)
    ensures exists n :: IsLeastCost(n, a, b)
  {
    var script := Straightforward(a, b);
    var n := CheaperUntilLeast(a, b, script);
  }

  lemma {:induction false} CheaperUntilLeast(a: string, b: string, script: seq<Edit>) returns (n: nat)
    requires Rewrites(script, a, b)
    ensures IsLeastCost(n, a, b)
    decreases Cost(script)
  {
    if cheaper :| Rewrites(cheaper, a, b) && Cost(cheaper) < Cost(script) {
      n := CheaperUntilLeast(a, b, cheaper);
    } else {
      n := Cost(script);
    }
  }

  /** Letter by letter from the end, then what is left of the longer text: at most the longer length. */
  lemma {:induction false} Straightforward(a: string, b: string) returns (script: seq<Edit>)
    ensures Rewrites(script, a, b) && Cost(script) <= Max(|a|, |b|)
    decreases |a| + |b|
  {
    hide Cost;
    hide Source;
    hide Target;
    if a == [] && b == [] {
      script := NothingDone();
    } else if |a| > |b| {
      script := Straightforward(a[..|a| - 1], b);
      script := Then(script, Delete(a[|a| - 1]), a, b);
    } else if |a| < |b| {
      script := Straightforward(a, b[..|b| - 1]);
      script := Then(script, Insert(b[|b| - 1]), a, b);
    } else {
      script := Straightforward(a[..|a| - 1], b[..|b| - 1]);
      script := Then(script, Substitute(a[|a| - 1], b[|b| - 1]), a, b);
    }
  }

  lemma NothingDone() returns (script: seq<Edit>)
    ensures Rewrites(script, [], []) && Cost(script) == 0
  {
    script := [];
  }

  lemma Then(script: seq<Edit>, e: Edit, a: string, b: string) returns (longer: seq<Edit>)
    requires !e.Keep? && Source(script) + Reads(e) == a && Target(script) + Writes(e) == b
    ensures Rewrites(longer, a, b) && Cost(longer) == Cost(script) + 1
  {
    longer := Extended(script, e);
  }

  lemma Extended(script: seq<Edit>, e: Edit) returns (longer: seq<Edit>)
    ensures longer == script + [e]
    ensures Rewrites(longer, Source(script) + Reads(e), Target(script) + Writes(e))
    ensures Cost(longer) == Cost(script) + if e.Keep? then 0 else 1
  {
    longer := script + [e];
    assert longer[..|script|] == script;
  }

  lemma LeastCostIsUnique(m: nat, n: nat, a: string, b: string)
    requires IsLeastCost(m, a, b) && IsLeastCost(n, a, b)
    ensures m == n
  {}

  // -------------------------------------------------------------------------------------------------------------
  // The table
  // -------------------------------------------------------------------------------------------------------------

  function Min(x: nat, y: nat): nat { if x <= y then x else y }

  function Max(x: nat, y: nat): nat { if x <= y then y else x }

  /** All but the last `k` letters. */
  function Front(a: string, k: nat): string
    requires k <= |a|
  {
    a[..|a| - k]
  }

  /** Whether the last two letters of each are the other's, crossed. */
  predicate Crossed(a: string, b: string) {
    |a| > 1 && |b| > 1 && a[|a| - 1] == b[|b| - 2] && a[|a| - 2] == b[|b| - 1]
  }

  /** A script between two texts and an edit more give a script between the longer texts. */
  lemma EntryIsReached(e: Edit, before: nat, a0: string, b0: string, a: string, b: string)
    requires a == a0 + Reads(e) && b == b0 + Writes(e) && IsLeastCost(before, a0, b0)
    ensures exists script :: Rewrites(script, a, b) && Cost(script) == before + if e.Keep? then 0 else 1
  {
    var script :| Rewrites(script, a0, b0) && Cost(script) == before;
    var longer := Extended(script, e);
  }

  lemma CostsAtLeast(n: nat, a: string, b: string, script: seq<Edit>)
    requires IsLeastCost(n, a, b) && Rewrites(script, a, b)
    ensures n <= Cost(script)
  {}

  /** The entries the code takes the best of. */
  function BestOf(same: bool, crossed: bool, above: nat, left: nat, diagonal: nat, twoBack: nat): nat {
    var best := Min(Min(above + 1, left + 1), diagonal + if same then 0 else 1);
    if crossed then Min(best, twoBack + 1) else best
  }

  /** The best of the four earlier entries is the least cost again. */
  lemma EntryIsLeast(a: string, b: string, above: nat, left: nat, diagonal: nat, twoBack: nat)
    requires a != [] && b != []
    requires IsLeastCost(above, Front(a, 1), b) && IsLeastCost(left, a, Front(b, 1))
    requires IsLeastCost(diagonal, Front(a, 1), Front(b, 1))
    requires Crossed(a, b) ==> IsLeastCost(twoBack, Front(a, 2), Front(b, 2))
    ensures IsLeastCost(BestOf(a[|a| - 1] == b[|b| - 1], Crossed(a, b), above, left, diagonal, twoBack), a, b)
  {
    var best := BestOf(a[|a| - 1] == b[|b| - 1], Crossed(a, b), above, left, diagonal, twoBack);
    EntryHasScript(a, b, above, left, diagonal, twoBack, best);
    forall script | Rewrites(script, a, b)
      ensures best <= Cost(script)
    {
      var rest, e := script[..|script| - 1], script[|script| - 1];
      EntryIsBelow(rest, e, a, b, above, left, diagonal, twoBack);
    }
  }

  lemma EntryHasScript(a: string, b: string, above: nat, left: nat, diagonal: nat, twoBack: nat, best: nat)
    requires a != [] && b != []
    requires IsLeastCost(above, Front(a, 1), b) && IsLeastCost(left, a, Front(b, 1))
    requires IsLeastCost(diagonal, Front(a, 1), Front(b, 1))
    requires Crossed(a, b) ==> IsLeastCost(twoBack, Front(a, 2), Front(b, 2))
    requires best == BestOf(a[|a| - 1] == b[|b| - 1], Crossed(a, b), above, left, diagonal, twoBack)
    ensures exists script :: Rewrites(script, a, b) && Cost(script) == best
  {
    hide IsLeastCost;
    hide Rewrites;
    hide Cost;
    var x, y := a[|a| - 1], b[|b| - 1];
    if best == above + 1 {
      EntryIsReached(Delete(x), above, Front(a, 1), b, a, b);
    } else if best == left + 1 {
      EntryIsReached(Insert(y), left, a, Front(b, 1), a, b);
    } else if best == diagonal + if x == y then 0 else 1 {
      EntryIsReached(if x == y then Keep(x) else Substitute(x, y), diagonal, Front(a, 1), Front(b, 1), a, b);
    } else {
      EntryIsReached(Swap(a[|a| - 2], x), twoBack, Front(a, 2), Front(b, 2), a, b);
    }
  }

  /** Whatever edit ends a script, the best entry is at most what the script costs. */
  lemma EntryIsBelow(rest: seq<Edit>, e: Edit, a: string, b: string, above: nat, left: nat, diagonal: nat, twoBack: nat)
    requires a != [] && b != [] && Source(rest) + Reads(e) == a && Target(rest) + Writes(e) == b
    requires IsLeastCost(above, Front(a, 1), b) && IsLeastCost(left, a, Front(b, 1))
    requires IsLeastCost(diagonal, Front(a, 1), Front(b, 1))
    requires Crossed(a, b) ==> IsLeastCost(twoBack, Front(a, 2), Front(b, 2))
    ensures BestOf(a[|a| - 1] == b[|b| - 1], Crossed(a, b), above, left, diagonal, twoBack)
            <= Cost(rest) + if e.Keep? then 0 else 1
  {
    hide IsLeastCost;
    hide Source;
    hide Target;
    hide Cost;
    var p, q := Source(rest), Target(rest);
    match e
    case Keep(c) =>
      assert p == Front(a, 1) && q == Front(b, 1) && a[|a| - 1] == b[|b| - 1];
      CostsAtLeast(diagonal, p, q, rest);
    case Insert(_) =>
      assert p == a && q == Front(b, 1);
      CostsAtLeast(left, p, q, rest);
    case Delete(_) =>
      assert p == Front(a, 1) && q == b;
      CostsAtLeast(above, p, q, rest);
    case Substitute(_, _) =>
      assert p == Front(a, 1) && q == Front(b, 1);
      CostsAtLeast(diagonal, p, q, rest);
    case Swap(c, d) =>
      assert p == Front(a, 2) && q == Front(b, 2);
      assert a[|p|] == c && a[|p| + 1] == d && b[|q|] == d && b[|q| + 1] == c;
      CostsAtLeast(twoBack, p, q, rest);
  }

  /** With one text empty there is one insertion or deletion a letter. */
  lemma EdgeIsLeast(a: string, b: string)
    requires a == [] || b == []
    ensures IsLeastCost(|a| + |b|, a, b)
  {
    var script := Straightforward(a, b);
    LengthsWithinCost(script);
    forall s | Rewrites(s, a, b)
      ensures |a| + |b| <= Cost(s)
    {
      LengthsWithinCost(s);
    }
    assert Cost(script) == |a| + |b|;
  }

  /** Main result: the table's last entry is the least cost of an edit script between the two texts. */
  method EditDistance(a: string, b: string) returns (distance: nat)
    ensures IsLeastCost(distance, a, b)
  {
    hide IsLeastCost;
    var d := new nat[|a| + 1, |b| + 1]((i, j) => if i == 0 then j else if j == 0 then i else 0);
    forall x, y | 0 <= x <= |a| && 0 <= y <= |b| && (x == 0 || y == 0)
      ensures IsLeastCost(d[x, y], a[..x], b[..y])
    {
      EdgeIsLeast(a[..x], b[..y]);
    }
    for i := 1 to |a| + 1
      invariant forall x, y {:trigger d[x, y]} | 0 <= x <= |a| && 0 <= y <= |b| && (x < i || y == 0) ::
          IsLeastCost(d[x, y], a[..x], b[..y])
    {
      for j := 1 to |b| + 1
        invariant forall x, y {:trigger d[x, y]} | 0 <= x <= |a| && 0 <= y <= |b| && (x < i || y == 0 || (x == i && y < j)) ::
            IsLeastCost(d[x, y], a[..x], b[..y])
      {
        var cost := if a[i - 1] == b[j - 1] then 0 else 1;
        var best := Min(Min(d[i - 1, j] + 1, d[i, j - 1] + 1), d[i - 1, j - 1] + cost);
        if i > 1 && j > 1 && a[i - 1] == b[j - 2] && a[i - 2] == b[j - 1] {
          best := Min(best, d[i - 2, j - 2] + 1);
        }
        NextEntry(a, b, i, j, d[i - 1, j], d[i, j - 1], d[i - 1, j - 1], if i > 1 && j > 1 then d[i - 2, j - 2] else 0);
        d[i, j] := best;
      }
    }
    assert a[..|a|] == a && b[..|b|] == b;
    distance := d[|a|, |b|];
  }

  /** `EntryIsLeast` for the first `i` and `j` letters. */
  lemma NextEntry(a: string, b: string, i: nat, j: nat, above: nat, left: nat, diagonal: nat, twoBack: nat)
    requires 0 < i <= |a| && 0 < j <= |b|
    requires IsLeastCost(above, a[..i - 1], b[..j]) && IsLeastCost(left, a[..i], b[..j - 1])
    requires IsLeastCost(diagonal, a[..i - 1], b[..j - 1])
    requires i > 1 && j > 1 ==> IsLeastCost(twoBack, a[..i - 2], b[..j - 2])
    ensures IsLeastCost(BestOf(a[i - 1] == b[j - 1], i > 1 && j > 1 && a[i - 1] == b[j - 2] && a[i - 2] == b[j - 1],
                               above, left, diagonal, twoBack), a[..i], b[..j])
  {
    hide IsLeastCost;
    var p, q := a[..i], b[..j];
    assert Front(p, 1) == a[..i - 1] && Front(q, 1) == b[..j - 1];
    assert i > 1 && j > 1 ==> Front(p, 2) == a[..i - 2] && Front(q, 2) == b[..j - 2];
    EntryIsLeast(p, q, above, left, diagonal, twoBack);
  }

  // -------------------------------------------------------------------------------------------------------------
  // What follows from it
  // -------------------------------------------------------------------------------------------------------------

  function Undo(e: Edit): Edit {
    match e
    case Keep(c) => Keep(c)
    case Insert(c) => Delete(c)
    case Delete(c) => Insert(c)
    case Substitute(c, d) => Substitute(d, c)
    case Swap(c, d) => Swap(d, c)
  }

  /** The script that takes every edit back. */
  lemma {:induction false} Undone(script: seq<Edit>) returns (back: seq<Edit>)
    ensures Rewrites(back, Target(script), Source(script)) && Cost(back) == Cost(script)
    decreases |script|
  {
    if script == [] {
      back := [];
    } else {
      var rest := Undone(script[..|script| - 1]);
      back := Extended(rest, Undo(script[|script| - 1]));
    }
  }

  lemma DistanceAtMost(a: string, b: string)
    ensures Distance(b, a) <= Distance(a, b)
  {
    assert IsLeastCost(Distance(a, b), a, b);
    var script :| Rewrites(script, a, b) && Cost(script) == Distance(a, b);
    var back := Undone(script);
  }

  lemma Symmetric(a: string, b: string)
    ensures Distance(a, b) == Distance(b, a)
  {
    DistanceAtMost(a, b);
    DistanceAtMost(b, a);
  }

  lemma {:induction false} FreeScriptChangesNothing(script: seq<Edit>)
    requires Cost(script) == 0
    ensures Source(script) == Target(script)
    decreases |script|
  {
    if script != [] {
      FreeScriptChangesNothing(script[..|script| - 1]);
    }
  }

  lemma {:induction false} Kept(a: string) returns (script: seq<Edit>)
    ensures Rewrites(script, a, a) && Cost(script) == 0
    decreases |a|
  {
    if a == [] {
      script := [];
    } else {
      var rest := Kept(a[..|a| - 1]);
      script := Extended(rest, Keep(a[|a| - 1]));
    }
  }

  lemma ZeroExactlyForEqual(a: string, b: string)
    ensures Distance(a, b) == 0 <==> a == b
  {
    if a == b {
      var script := Kept(a);
    } else if Distance(a, b) == 0 {
      var script :| Rewrites(script, a, b) && Cost(script) == 0;
      FreeScriptChangesNothing(script);
    }
  }

  lemma {:induction false} LengthsWithinCost(script: seq<Edit>)
    ensures |Source(script)| <= |Target(script)| + Cost(script)
    ensures |Target(script)| <= |Source(script)| + Cost(script)
    decreases |script|
  {
    if script != [] {
      LengthsWithinCost(script[..|script| - 1]);
    }
  }

  /** The distance lies between the difference of the lengths and the longer length. */
  lemma Bounded(a: string, b: string)
    ensures Max(|a|, |b|) - Min(|a|, |b|) <= Distance(a, b) <= Max(|a|, |b|)
  {
    assert IsLeastCost(Distance(a, b), a, b);
    var script :| Rewrites(script, a, b) && Cost(script) == Distance(a, b);
    LengthsWithinCost(script);
    var other := Straightforward(a, b);
  }

  /** Two different pieces, each a letter or nothing, or one two letters and the other those two the other way round. */
  predicate IsStep(x: string, y: string) {
    x != y && ((|x| <= 1 && |y| <= 1) || (|x| == 2 && y == [x[1], x[0]]))
  }

  /** The texts are the same but for one such piece. */
  ghost predicate OneStepApart(a: string, b: string) {
    exists front: string, x: string, y: string, back: string :: a == front + x + back && b == front + y + back && IsStep(x, y)
  }

  lemma {:induction false} StepIsScript(front: string, x: string, y: string, back: string) returns (script: seq<Edit>)
    requires IsStep(x, y)
    ensures Rewrites(script, front + x + back, front + y + back) && Cost(script) == 1
    decreases |back|
  {
    hide Cost;
    hide Source;
    hide Target;
    if back == [] {
      var rest := Kept(front);
      var e := if x == [] then Insert(y[0]) else if y == [] then Delete(x[0])
               else if |x| == 1 then Substitute(x[0], y[0]) else Swap(x[0], x[1]);
      script := Extended(rest, e);
      assert front + x + back == front + x && front + y + back == front + y;
    } else {
      var shorter, last := back[..|back| - 1], back[|back| - 1];
      var rest := StepIsScript(front, x, y, shorter);
      script := Extended(rest, Keep(last));
      assert front + x + back == front + x + shorter + [last] && front + y + back == front + y + shorter + [last];
    }
  }

  lemma {:induction false} ScriptIsStep(script: seq<Edit>)
    requires Cost(script) == 1 && Source(script) != Target(script)
    ensures OneStepApart(Source(script), Target(script))
    decreases |script|
  {
    var rest, e := script[..|script| - 1], script[|script| - 1];
    var a, b := Source(rest), Target(rest);
    if e.Keep? {
      ScriptIsStep(rest);
      var front: string, x: string, y: string, back: string :|
        a == front + x + back && b == front + y + back && IsStep(x, y);
      assert a + [e.c] == front + x + (back + [e.c]) && b + [e.c] == front + y + (back + [e.c]);
    } else {
      FreeScriptChangesNothing(rest);
      assert a + Reads(e) == a + Reads(e) + "" && b + Writes(e) == a + Writes(e) + "";
    }
  }

  /** Main result: the distance is one exactly for a letter put in, left out or replaced, or two neighbours swapped. */
  lemma OneExactlyForAStep(a: string, b: string)
    ensures Distance(a, b) == 1 <==> OneStepApart(a, b)
  {
    ZeroExactlyForEqual(a, b);
    assert IsLeastCost(Distance(a, b), a, b);
    if Distance(a, b) == 1 {
      var script :| Rewrites(script, a, b) && Cost(script) == 1;
      ScriptIsStep(script);
    }
    if OneStepApart(a, b) {
      var front: string, x: string, y: string, back: string :|
        a == front + x + back && b == front + y + back && IsStep(x, y);
      var script := StepIsScript(front, x, y, back);
      StepsDiffer(front, x, y, back);
    }
  }

  lemma StepsDiffer(front: string, x: string, y: string, back: string)
    requires IsStep(x, y)
    ensures front + x + back != front + y + back
  {
    assert (front + x + back)[|front|..|front| + |x|] == x && (front + y + back)[|front|..|front| + |y|] == y;
  }

  // -------------------------------------------------------------------------------------------------------------
  // The suggestion
  // -------------------------------------------------------------------------------------------------------------

  const MAX_SUGGESTION_DISTANCE: nat := 2

  /** `b` is the suggestion for `name`: near enough, no candidate nearer, and none as near that sorts before it. */
  ghost predicate IsSuggestion(b: string, candidates: seq<string>, name: string) {
    && b in candidates && Distance(b, name) <= MAX_SUGGESTION_DISTANCE
    && forall c :: c in candidates ==>
         Distance(b, name) < Distance(c, name) || (Distance(b, name) == Distance(c, name) && Precedes(b, c))
  }

  /** The catalogue's names of a slot, and `custom` on a commerce slot. */
  function Candidates(catalogue: seq<string>, commerce: bool): seq<string> {
    catalogue + if commerce then ["custom"] else []
  }

  lemma CandidatesAre(catalogue: seq<string>, commerce: bool)
    ensures forall c :: c in Candidates(catalogue, commerce) <==> c in catalogue || (commerce && c == "custom")
  {}

  /**
   * The nearest candidate within two edits, the alphabetically first of them; none exactly when every candidate is
   * further away.
   */
  method SuggestProvider(catalogue: seq<string>, commerce: bool, name: string) returns (suggestion: Option<string>)
    ensures suggestion.None? <==> forall c :: c in catalogue || (commerce && c == "custom") ==> Distance(c, name) > 2
    ensures suggestion.Some? ==> IsSuggestion(suggestion.value, Candidates(catalogue, commerce), name)
  {
    hide IsLeastCost;
    hide Candidates;
    CandidatesAre(catalogue, commerce);
    var candidates := SortNames(Candidates(catalogue, commerce));
    var best: Option<(string, nat)> := None;
    for k := 0 to |candidates|
      invariant best.None? ==> forall i :: 0 <= i < k ==> Distance(candidates[i], name) > MAX_SUGGESTION_DISTANCE
      invariant best.Some? ==>
                  && best.value.0 in candidates[..k] && best.value.1 == Distance(best.value.0, name) <= MAX_SUGGESTION_DISTANCE
                  && forall i :: 0 <= i < k ==>
                       best.value.1 < Distance(candidates[i], name)
                       || (best.value.1 == Distance(candidates[i], name) && Precedes(best.value.0, candidates[i]))
    {
      PrecedesIsTotal(candidates[k], candidates[k]);
      var distance := EditDistance(candidates[k], name);
      LeastCostIsUnique(distance, Distance(candidates[k], name), candidates[k], name);
      if distance <= MAX_SUGGESTION_DISTANCE {
        if best.None? || distance < best.value.1 {
          best := Some((candidates[k], distance));
        }
      }
    }
    suggestion := if best.None? then None else Some(best.value.0);
  }

  /** There is at most one suggestion, so the order of the catalogue never matters. */
  lemma SuggestionIsUnique(b: string, c: string, candidates: seq<string>, name: string)
    requires IsSuggestion(b, candidates, name) && IsSuggestion(c, candidates, name)
    ensures b == c
  {
    PrecedesIsTotal(b, c);
  }
}
