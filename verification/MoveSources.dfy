/**
 * Where each added or renamed file of a change moved from (scripts/gate.ts, `moveSources`): a name that
 * one removed file had decides first, and git's pairing only what is left.
 */
module MoveSources {
  import opened Wrappers

  /** A line of `git diff --name-status -M`. */
  datatype Line = Added(path: string) | Deleted(path: string) | Renamed(from: string, to: string) | Unread

  function Basename(path: string): string {
    if path == "" || path[|path| - 1] == '/' then "" else Basename(path[..|path| - 1]) + [path[|path| - 1]]
  }

  function RemovedBy(lines: seq<Line>): set<string> {
    if lines == [] then {}
    else
      var last := lines[|lines| - 1];
      RemovedBy(lines[..|lines| - 1]) + if last.Deleted? then {last.path} else if last.Renamed? then {last.from} else {}
  }

  /** Git's own pairing of the targets; the last line of a path counts. */
  function Pairing(lines: seq<Line>): map<string, Option<string>> {
    if lines == [] then map[]
    else
      var last, front := lines[|lines| - 1], Pairing(lines[..|lines| - 1]);
      if last.Added? then front[last.path := None] else if last.Renamed? then front[last.to := Some(last.from)] else front
  }

  /** The targets, in the order they are first named. */
  function Targets(lines: seq<Line>): (order: seq<string>)
    ensures forall t :: t in order <==> t in Pairing(lines)
    ensures forall i, j :: 0 <= i < j < |order| ==> order[i] != order[j]
  {
    if lines == [] then []
    else
      var last, front := lines[|lines| - 1], Targets(lines[..|lines| - 1]);
      if last.Added? && last.path !in front then front + [last.path]
      else if last.Renamed? && last.to !in front then front + [last.to]
      else front
  }

  // -------------------------------------------------------------------------------------------------------------
  // What is read of the lines
  // -------------------------------------------------------------------------------------------------------------

  /** The last segment of a path: what stands behind its directory. */
  lemma {:induction false} BasenameIs(directory: string, name: string)
    requires (directory == "" || directory[|directory| - 1] == '/') && '/' !in name
    ensures Basename(directory + name) == name
    decreases |name|
  {
    if name == "" {
      assert directory + name == directory;
    } else {
      assert (directory + name)[..|directory + name| - 1] == directory + name[..|name| - 1];
      BasenameIs(directory, name[..|name| - 1]);
    }
  }

  /** The line adds the file, or is a rename to it. */
  predicate Names(line: Line, target: string) { line == Added(target) || (line.Renamed? && line.to == target) }

  lemma {:induction false} RemovedExactly(lines: seq<Line>, path: string)
    ensures path in RemovedBy(lines) <==> exists line :: line in lines && (line == Deleted(path) || (line.Renamed? && line.from == path))
    decreases |lines|
  {
    if lines != [] {
      assert lines == lines[..|lines| - 1] + [lines[|lines| - 1]];
      RemovedExactly(lines[..|lines| - 1], path);
    }
  }

  /** The last line that names a target says how git pairs it. */
  lemma {:induction false} LastLinePairs(lines: seq<Line>, i: nat, target: string)
    requires i < |lines| && Names(lines[i], target) && forall k :: i < k < |lines| ==> !Names(lines[k], target)
    ensures target in Pairing(lines) && Pairing(lines)[target] == if lines[i].Added? then None else Some(lines[i].from)
    decreases |lines|
  {
    if i < |lines| - 1 {
      LastLinePairs(lines[..|lines| - 1], i, target);
    }
  }

  lemma PairingGrows(lines: seq<Line>, target: string)
    requires lines != []
    ensures target in Pairing(lines) <==> target in Pairing(lines[..|lines| - 1]) || Names(lines[|lines| - 1], target)
  {}

  lemma {:induction false} NamedExactly(lines: seq<Line>, target: string)
    ensures target in Pairing(lines) <==> exists line :: line in lines && Names(line, target)
    decreases |lines|
  {
    if lines != [] {
      var front, last := lines[..|lines| - 1], lines[|lines| - 1];
      assert lines == front + [last];
      assert forall line :: line in lines <==> line in front || line == last;
      NamedExactly(front, target);
      PairingGrows(lines, target);
      hide Pairing;
      assert Names(last, target) ==> last in lines;
    }
  }

  /** A target named before another is named at all comes before it. */
  lemma {:induction false} FirstNamedFirst(lines: seq<Line>, i: nat, t: string, u: string) returns (j: nat, k: nat)
    requires i < |lines| && Names(lines[i], t) && t != u && u in Targets(lines)
    requires forall m :: 0 <= m <= i ==> !Names(lines[m], u)
    ensures j < k < |Targets(lines)| && Targets(lines)[j] == t && Targets(lines)[k] == u
    decreases |lines|
  {
    var front, last := lines[..|lines| - 1], lines[|lines| - 1];
    if u in Targets(front) {
      if i < |front| {
        j, k := FirstNamedFirst(front, i, t, u);
      } else {
        NamedExactly(front, u);
        assert false;
      }
    } else {
      assert Targets(lines) == Targets(front) + [u];
      NamedExactly(front, t);
      assert front[i] == lines[i];
      j :| 0 <= j < |Targets(front)| && Targets(front)[j] == t;
      k := |Targets(front)|;
    }
  }

  /** `path` is the one removed file named as the target is. */
  ghost predicate Namesake(removed: set<string>, target: string, path: string) {
    && path in removed && Basename(path) == Basename(target)
    && forall q :: q in removed && Basename(q) == Basename(target) ==> q == path
  }

  method OwnNamed(removed: set<string>, target: string) returns (path: Option<string>)
    ensures forall p :: Namesake(removed, target, p) <==> path == Some(p)
  {
    var same := set p | p in removed && Basename(p) == Basename(target);
    forall p
      ensures Namesake(removed, target, p) ==> |same| == 1
    {
      NamesakeIsOnly(removed, target, p, same);
    }
    if |same| == 1 {
      var p :| p in same;
      OneMember(same, p);
      assert forall q :: q in removed && Basename(q) == Basename(target) ==> q in same;
      path := Some(p);
    } else {
      path := None;
    }
  }

  lemma NamesakeIsOnly(removed: set<string>, target: string, p: string, same: set<string>)
    requires forall q :: q in same <==> q in removed && Basename(q) == Basename(target)
    ensures Namesake(removed, target, p) ==> |same| == 1
  {
    if Namesake(removed, target, p) {
      assert same == {p};
    }
  }

  lemma OneMember(s: set<string>, p: string)
    requires |s| == 1 && p in s
    ensures forall q :: q in s ==> q == p
  {
    assert |s - {p}| == 0;
    assert forall q :: q in s && q != p ==> q in s - {p};
  }

  /** The first target of a removed file's name, which takes it. */
  ghost predicate Takes(removed: set<string>, order: seq<string>, target: string, path: string) {
    exists i :: 0 <= i < |order| && order[i] == target && Namesake(removed, target, path)
                && forall j :: 0 <= j < i ==> !Namesake(removed, order[j], path)
  }

  ghost predicate Taken(removed: set<string>, order: seq<string>, path: string) {
    exists target :: target in order && Namesake(removed, target, path)
  }

  /** What the source of a target is to be. */
  ghost predicate IsSource(removed: set<string>, order: seq<string>, git: Option<string>, target: string, source: Option<string>) {
    if exists path :: Takes(removed, order, target, path) then source.Some? && Takes(removed, order, target, source.value)
    else source == if git.Some? && !Taken(removed, order, git.value) then git else None
  }

  /** Main result: a unique namesake goes to the first target of its name, and git's pairing settles the rest. */
  method MoveSources(lines: seq<Line>) returns (result: map<string, Option<string>>)
    ensures result.Keys == Pairing(lines).Keys
    ensures forall t :: t in result ==> IsSource(RemovedBy(lines), Targets(lines), Pairing(lines)[t], t, result[t])
  {
    var removed: set<string>, targets: map<string, Option<string>>, order: seq<string> := {}, map[], [];
    for i := 0 to |lines|
      invariant removed == RemovedBy(lines[..i]) && targets == Pairing(lines[..i]) && order == Targets(lines[..i])
    {
      assert lines[..i + 1][..i] == lines[..i];
      match lines[i]
      case Deleted(path) => removed := removed + {path};
      case Added(path) =>
        order := if path in order then order else order + [path];
        targets := targets[path := None];
      case Renamed(from, to) =>
        removed := removed + {from};
        order := if to in order then order else order + [to];
        targets := targets[to := Some(from)];
      case Unread =>
    }
    assert lines[..|lines|] == lines;
    var claimed;
    result, claimed := ClaimByName(removed, order);
    for i := 0 to |order|
      invariant forall t :: t in result <==> t in order[..i] || exists path :: Takes(removed, order, t, path)
      invariant forall t :: t in result ==> IsSource(removed, order, targets[t], t, result[t])
    {
      var target := order[i];
      if target !in result {
        var git := targets[target];
        result := result[target := if git.Some? && git.value !in claimed then git else None];
      }
    }
  }

  /** The target at a place takes a file exactly when it is its namesake and no earlier target is. */
  lemma TakesAt(removed: set<string>, order: seq<string>, i: nat)
    requires i < |order| && forall j, k :: 0 <= j < k < |order| ==> order[j] != order[k]
    ensures forall path :: Takes(removed, order, order[i], path) <==>
                           Namesake(removed, order[i], path) && forall j :: 0 <= j < i ==> !Namesake(removed, order[j], path)
  {
    hide Namesake;
  }

  lemma TakersAreTargets(removed: set<string>, order: seq<string>)
    ensures forall t, path :: Takes(removed, order, t, path) ==> t in order
  {}

  method ClaimByName(removed: set<string>, order: seq<string>) returns (result: map<string, Option<string>>, claimed: set<string>)
    requires forall i, j :: 0 <= i < j < |order| ==> order[i] != order[j]
    ensures forall t :: t in result ==> t in order
    ensures forall t :: t in result <==> exists path :: Takes(removed, order, t, path)
    ensures forall t :: t in result ==> result[t].Some? && Takes(removed, order, t, result[t].value)
    ensures forall path :: path in claimed <==> Taken(removed, order, path)
  {
    hide Namesake;
    hide Takes;
    result, claimed := map[], {};
    for i := 0 to |order|
      invariant forall t :: t in result ==> t in order[..i] && result[t].Some? && Takes(removed, order, t, result[t].value)
      invariant forall t, path :: t in order[..i] && Takes(removed, order, t, path) ==> t in result
      invariant forall path :: path in claimed <==> exists j :: 0 <= j < i && Namesake(removed, order[j], path)
    {
      var same := OwnNamed(removed, order[i]);
      TakesAt(removed, order, i);
      if same.Some? && same.value !in claimed {
        claimed := claimed + {same.value};
        result := result[order[i] := same];
      }
    }
    assert order[..|order|] == order;
    TakersAreTargets(removed, order);
  }

  ghost predicate PairsNoneTwice(pairing: map<string, Option<string>>) {
    forall x, y :: x in pairing && y in pairing && pairing[x].Some? && pairing[x] == pairing[y] ==> x == y
  }

  lemma {:induction false} PairedIsRemoved(lines: seq<Line>, target: string)
    requires target in Pairing(lines) && Pairing(lines)[target].Some?
    ensures Pairing(lines)[target].value in RemovedBy(lines)
    decreases |lines|
  {
    var front := lines[..|lines| - 1];
    if target in Pairing(front) && Pairing(lines)[target] == Pairing(front)[target] {
      PairedIsRemoved(front, target);
    }
  }

  /** Whatever a target moved from is a file the change removes. */
  lemma SourceWasRemoved(lines: seq<Line>, target: string, source: Option<string>)
    requires target in Pairing(lines) && source.Some?
    requires IsSource(RemovedBy(lines), Targets(lines), Pairing(lines)[target], target, source)
    ensures source.value in RemovedBy(lines)
  {
    if source == Pairing(lines)[target] {
      PairedIsRemoved(lines, target);
    }
  }

  /** Main result: when git pairs no file twice, no file is the source of two targets. */
  lemma NoSourceTwice(lines: seq<Line>, result: map<string, Option<string>>, t: string, u: string)
    requires result.Keys == Pairing(lines).Keys && t in result && u in result
    requires forall x :: x in result ==> IsSource(RemovedBy(lines), Targets(lines), Pairing(lines)[x], x, result[x])
    requires PairsNoneTwice(Pairing(lines))
    requires result[t].Some? && result[t] == result[u]
    ensures t == u
  {
    var removed, order, path := RemovedBy(lines), Targets(lines), result[t].value;
    assert IsSource(removed, order, Pairing(lines)[t], t, result[t]);
    assert IsSource(removed, order, Pairing(lines)[u], u, result[u]);
    if Takes(removed, order, t, path) && Takes(removed, order, u, path) {
      var i :| 0 <= i < |order| && order[i] == t && forall j :: 0 <= j < i ==> !Namesake(removed, order[j], path);
      var k :| 0 <= k < |order| && order[k] == u && forall j :: 0 <= j < k ==> !Namesake(removed, order[j], path);
    }
  }
}
