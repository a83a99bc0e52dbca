/** The workspace packages a package depends on, directly or not (scripts/gate.ts, `workspaceClosure`). */
module WorkspaceClosure {
  import opened TextOrder
  import opened Wrappers

  /** A manifest: `deps` are the names of its dependencies, dev dependencies and peer dependencies. */
  datatype Package = Package(dir: string, name: Option<string>, deps: seq<string>)

  /** The directory of the last package of that name. */
  function DirOf(packages: seq<Package>, name: string): Option<string> {
    if packages == [] then None
    else
      var last := packages[|packages| - 1];
      if last.name == Some(name) then Some(last.dir) else DirOf(packages[..|packages| - 1], name)
  }

  /** The dependencies of the package in that directory. */
  function DepsOf(packages: seq<Package>, dir: string): Option<seq<string>> {
    if packages == [] then None
    else
      var last := packages[|packages| - 1];
      if last.dir == dir then Some(last.deps) else DepsOf(packages[..|packages| - 1], dir)
  }

  /** Of several packages of one name the last gives the directory. */
  lemma {:induction false} LastOfNameDecides(packages: seq<Package>, i: nat, name: string)
    requires i < |packages| && packages[i].name == Some(name)
    requires forall k :: i < k < |packages| ==> packages[k].name != Some(name)
    ensures DirOf(packages, name) == Some(packages[i].dir)
    decreases |packages|
  {
    if i < |packages| - 1 {
      LastOfNameDecides(packages[..|packages| - 1], i, name);
    }
  }

  /** Of several manifests of one directory the last gives the dependencies. */
  lemma {:induction false} LastInDirectoryDecides(packages: seq<Package>, i: nat, dir: string)
    requires i < |packages| && packages[i].dir == dir && forall k :: i < k < |packages| ==> packages[k].dir != dir
    ensures DepsOf(packages, dir) == Some(packages[i].deps)
    decreases |packages|
  {
    if i < |packages| - 1 {
      LastInDirectoryDecides(packages[..|packages| - 1], i, dir);
    }
  }

  /** A name or a directory that no package has gives nothing. */
  lemma {:induction false} OnlyPackagesDecide(packages: seq<Package>, name: string, dir: string)
    ensures (forall p :: p in packages ==> p.name != Some(name)) ==> DirOf(packages, name) == None
    ensures (forall p :: p in packages ==> p.dir != dir) ==> DepsOf(packages, dir) == None
    decreases |packages|
  {
    if packages != [] {
      OnlyPackagesDecide(packages[..|packages| - 1], name, dir);
    }
  }

  predicate Known(packages: seq<Package>, dir: string) { DepsOf(packages, dir).Some? }

  /** A dependency of `dir` that is a workspace package. */
  ghost predicate DependsOn(packages: seq<Package>, dir: string, on: string) {
    && Known(packages, dir)
    && exists dep :: dep in DepsOf(packages, dir).value && DirOf(packages, dep) == Some(on)
  }

  /** A chain of dependencies through known packages, from the first to the last. */
  ghost predicate IsChain(packages: seq<Package>, chain: seq<string>) {
    && (forall i :: 0 <= i < |chain| ==> Known(packages, chain[i]))
    && (forall i :: 0 < i < |chain| ==> DependsOn(packages, chain[i - 1], chain[i]))
  }

  ghost predicate Reaches(packages: seq<Package>, start: string, dir: string) {
    exists chain: seq<string> :: chain != [] && chain[0] == start && chain[|chain| - 1] == dir && IsChain(packages, chain)
  }

  lemma StartReaches(packages: seq<Package>, start: string)
    requires Known(packages, start)
    ensures Reaches(packages, start, start)
  {
    var chain := [start];
    assert chain[0] == start && IsChain(packages, chain);
  }

  lemma ReachesOn(packages: seq<Package>, start: string, dir: string, on: string)
    requires Reaches(packages, start, dir) && DependsOn(packages, dir, on) && Known(packages, on)
    ensures Reaches(packages, start, on)
  {
    var chain: seq<string> :| chain != [] && chain[0] == start && chain[|chain| - 1] == dir && IsChain(packages, chain);
    var longer := chain + [on];
    assert longer[0] == start && longer[|longer| - 1] == on && IsChain(packages, longer);
  }

  /** Every dependency of a directory seen is seen, waiting, or outside the workspace. */
  ghost predicate Explored(packages: seq<Package>, seen: seq<string>, queue: seq<string>) {
    forall d, on :: d in seen && DependsOn(packages, d, on) ==> on in seen || on in queue || !Known(packages, on)
  }

  /** Why a directory waits: it is the start, or a dependency of one seen. */
  ghost predicate Awaited(packages: seq<Package>, start: string, seen: seq<string>, dir: string) {
    dir == start || exists d :: d in seen && DependsOn(packages, d, dir)
  }

  lemma WaitsAtFirst(packages: seq<Package>, start: string)
    ensures Awaited(packages, start, [], start)
  {}

  lemma AwaitedMore(packages: seq<Package>, start: string, seen: seq<string>, d: string)
    ensures forall dir :: Awaited(packages, start, seen, dir) ==> Awaited(packages, start, seen + [d], dir)
    ensures forall dir :: DependsOn(packages, d, dir) ==> Awaited(packages, start, seen + [d], dir)
  {
    assert forall e :: e in seen ==> e in seen + [d];
    assert d in seen + [d];
  }

  lemma {:induction false} ChainIsSeen(packages: seq<Package>, seen: seq<string>, chain: seq<string>)
    requires Explored(packages, seen, []) && IsChain(packages, chain) && chain != [] && chain[0] in seen
    ensures chain[|chain| - 1] in seen
    decreases |chain|
  {
    if |chain| > 1 {
      ChainIsSeen(packages, seen, chain[..|chain| - 1]);
      assert DependsOn(packages, chain[|chain| - 2], chain[|chain| - 1]);
    }
  }

  /** Main result: the closure is the packages reachable from `start`, sorted, each once. */
  method Closure(packages: seq<Package>, start: string) returns (closure: seq<string>)
    ensures forall dir :: dir in closure <==> Reaches(packages, start, dir)
    ensures Sorted(closure) && NoneTwice(closure)
  {
    var dirByName: map<string, string>, depsByDir: map<string, seq<string>> := map[], map[];
    for i := 0 to |packages|
      invariant forall name :: name in dirByName <==> DirOf(packages[..i], name).Some?
      invariant forall name :: name in dirByName ==> DirOf(packages[..i], name) == Some(dirByName[name])
      invariant forall dir :: dir in depsByDir <==> DepsOf(packages[..i], dir).Some?
      invariant forall dir :: dir in depsByDir ==> DepsOf(packages[..i], dir) == Some(depsByDir[dir])
    {
      assert packages[..i + 1][..i] == packages[..i];
      if packages[i].name.Some? {
        dirByName := dirByName[packages[i].name.value := packages[i].dir];
      }
      depsByDir := depsByDir[packages[i].dir := packages[i].deps];
    }
    assert packages[..|packages|] == packages;
    var seen := Explore(packages, start, dirByName, depsByDir);
    closure := SortNames(seen);
  }

  method Explore(ghost packages: seq<Package>, start: string, dirByName: map<string, string>, depsByDir: map<string, seq<string>>)
    returns (seen: seq<string>)
    requires forall name :: name in dirByName <==> DirOf(packages, name).Some?
    requires forall name :: name in dirByName ==> DirOf(packages, name) == Some(dirByName[name])
    requires forall dir :: dir in depsByDir <==> DepsOf(packages, dir).Some?
    requires forall dir :: dir in depsByDir ==> DepsOf(packages, dir) == Some(depsByDir[dir])
    ensures forall dir :: dir in seen <==> Reaches(packages, start, dir)
    ensures NoneTwice(seen)
  {
    hide DirOf;
    hide DepsOf;
    hide Reaches;
    hide Awaited;
    WaitsAtFirst(packages, start);
    seen := [];
    var queue := [start];
    ghost var unseen := depsByDir.Keys;
    while queue != []
      invariant forall dir :: dir in seen ==> dir in depsByDir && Reaches(packages, start, dir)
      invariant forall dir :: dir in queue ==> Awaited(packages, start, seen, dir)
      invariant start in seen || start in queue || !Known(packages, start)
      invariant Explored(packages, seen, queue) && NoneTwice(seen)
      invariant unseen == depsByDir.Keys - (set d | d in seen)
      decreases unseen, |queue|
    {
      var dir := queue[0];
      ghost var waiting := queue;
      assert dir in waiting;
      queue := queue[1..];
      assert waiting == [dir] + queue;
      if dir in seen || dir !in depsByDir {
        continue;
      }
      DirReaches(packages, start, seen, dir);
      AwaitedMore(packages, start, seen, dir);
      seen := seen + [dir];
      unseen := unseen - {dir};
      ghost var before := queue;
      var deps := depsByDir[dir];
      for k := 0 to |deps|
        invariant before <= queue
        invariant forall on :: on in queue <==> on in before || exists j :: 0 <= j < k && DirOf(packages, deps[j]) == Some(on)
      {
        if deps[k] in dirByName {
          queue := queue + [dirByName[deps[k]]];
        }
      }
    }
    AllSeen(packages, start, seen);
  }

  lemma DirReaches(packages: seq<Package>, start: string, seen: seq<string>, dir: string)
    requires Known(packages, dir) && forall d :: d in seen ==> Reaches(packages, start, d)
    requires Awaited(packages, start, seen, dir)
    ensures Reaches(packages, start, dir)
  {
    if dir == start {
      StartReaches(packages, start);
    } else {
      var d :| d in seen && DependsOn(packages, d, dir);
      ReachesOn(packages, start, d, dir);
    }
  }

  lemma AllSeen(packages: seq<Package>, start: string, seen: seq<string>)
    requires Explored(packages, seen, []) && (start in seen || !Known(packages, start))
    ensures forall dir :: Reaches(packages, start, dir) ==> dir in seen
  {
    forall dir | Reaches(packages, start, dir)
      ensures dir in seen
    {
      var chain: seq<string> :| chain != [] && chain[0] == start && chain[|chain| - 1] == dir && IsChain(packages, chain);
      ChainIsSeen(packages, seen, chain);
    }
  }
}
