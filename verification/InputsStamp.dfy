/**
 * The stamp of the build inputs (scripts/gate.ts, `inputsStamp`): read from HEAD's tree and patched where the work tree
 * is dirty. It is meant to be the stamp of the work tree, so that committing the tree does not change it; what is proved
 * is when it is.
 *
 * `blob` gives a text's object id, the hash is over the lines the stamp returns, and paths are as git prints them.
 */
module InputsStamp {
  import opened TextOrder

  datatype Mode = Plain | Executable | Link

  /** What git records at a path: a file's bytes, or the path a link names. */
  datatype Entry = Entry(mode: Mode, text: string)

  type Tree = map<string, Entry>

  type Blob = string -> string

  /** `opened` is what opening each path reads, a link followed; a link to nothing opens no file. */
  datatype Repo = Repo(head: Tree, index: set<string>, disk: Tree, opens: map<string, string>, ignored: set<string>)

  /** Files open as themselves; nothing opens that is not on the disk. */
  ghost predicate IsRepo(r: Repo) {
    && r.opens.Keys <= r.disk.Keys
    && forall p :: p in r.disk && !r.disk[p].mode.Link? ==> p in r.opens && r.opens[p] == r.disk[p].text
  }

  // -------------------------------------------------------------------------------------------------------------
  // What git lists
  // -------------------------------------------------------------------------------------------------------------

  /** `git diff HEAD`: HEAD's paths that left the index or the disk or differ there, and the index's new ones. */
  predicate Differs(r: Repo, p: string) {
    if p in r.head then p !in r.index || p !in r.disk || r.disk[p] != r.head[p]
    else p in r.index && p in r.disk
  }

  /** `git ls-files --others --exclude-standard`. */
  predicate IsOther(r: Repo, p: string) { p in r.disk && p !in r.index && p !in r.ignored }

  predicate IsDirty(r: Repo, p: string) { Differs(r, p) || IsOther(r, p) }

  ghost predicate ListsDirty(r: Repo, changed: seq<string>, others: seq<string>) {
    forall p :: (p in changed <==> Differs(r, p)) && (p in others <==> IsOther(r, p))
  }

  /** `git ls-tree` of HEAD: each path with its blob. */
  ghost predicate ListsTree(head: Tree, blob: Blob, listing: seq<(string, string)>) {
    && (forall p :: p in head ==> (p, blob(head[p].text)) in listing)
    && (forall e :: e in listing ==> e.0 in head && e.1 == blob(head[e.0].text))
  }

  /** A path on the disk that git knows of, or would. */
  predicate IsVisible(r: Repo, p: string) { p in r.disk && (p in r.index || p in r.head || p !in r.ignored) }

  /** What the stamp is of: the inputs that git sees on the disk, a dirty one with the blob of what opening it reads. */
  ghost function Stamped(r: Repo, blob: Blob, isInput: string -> bool): map<string, string> {
    map p | p in r.disk && IsVisible(r, p) && isInput(p) && (IsDirty(r, p) ==> p in r.opens) ::
      blob(if IsDirty(r, p) then r.opens[p] else r.disk[p].text)
  }

  // -------------------------------------------------------------------------------------------------------------
  // The lines hashed
  // -------------------------------------------------------------------------------------------------------------

  function Line(id: string, path: string): string { id + " " + path + "\n" }

  /** The lines hashed, in the order of the paths. */
  function LinesOf(paths: seq<string>, blobs: map<string, string>): seq<string>
    requires forall p :: p in paths ==> p in blobs
  {
    if paths == [] then []
    else LinesOf(paths[..|paths| - 1], blobs) + [Line(blobs[paths[|paths| - 1]], paths[|paths| - 1])]
  }

  /** `lines` are the lines of the map, its paths sorted, each once. */
  ghost predicate AreLines(lines: seq<string>, blobs: map<string, string>) {
    exists paths :: (forall p :: p in paths <==> p in blobs) && Sorted(paths) && NoneTwice(paths) && lines == LinesOf(paths, blobs)
  }

  /**
   * Main result: whatever HEAD, the index and the ignored paths are, the lines are those of the inputs git sees on the
   * disk. `listing`, `changed` and `others` are git's, and `present` is what `existsSync` and `hash-object` open.
   */
  method Stamp(ghost r: Repo, present: map<string, string>, blob: Blob, isInput: string -> bool,
               listing: seq<(string, string)>, changed: seq<string>, others: seq<string>) returns (lines: seq<string>)
    requires IsRepo(r) && present == r.opens && ListsTree(r.head, blob, listing) && ListsDirty(r, changed, others)
    ensures AreLines(lines, Stamped(r, blob, isInput))
  {
    hide AreLines;
    var dirty := Inputs(changed + others, isInput);
    var atHead := HeadBlobs(r.head, blob, isInput, listing);
    var clean := WithoutDirty(atHead, dirty);
    var blobs := WithPresent(clean, present, blob, dirty);
    PatchedIsStamped(r, blob, isInput, changed, others, clean, blobs);
    lines := SortedLines(blobs);
  }

  /** HEAD's inputs without the dirty ones, and then the dirty ones that open. */
  lemma PatchedIsStamped(r: Repo, blob: Blob, isInput: string -> bool, changed: seq<string>, others: seq<string>,
                         clean: map<string, string>, blobs: map<string, string>)
    requires IsRepo(r) && ListsDirty(r, changed, others)
    requires var dirty := Inputs(changed + others, isInput);
             && (forall p :: p in clean <==> p in r.head && isInput(p) && p !in dirty)
             && (forall p :: p in clean ==> clean[p] == blob(r.head[p].text))
             && (forall p :: p in blobs <==> p in clean || (p in dirty && p in r.opens))
             && (forall p :: p in blobs ==> blobs[p] == if p in clean then clean[p] else blob(r.opens[p]))
    ensures blobs == Stamped(r, blob, isInput)
  {
    hide Stamped;
    hide Differs;
    hide IsOther;
    var dirty, stamped := Inputs(changed + others, isInput), Stamped(r, blob, isInput);
    forall p
      ensures p in blobs <==> p in stamped
      ensures p in blobs ==> blobs[p] == stamped[p]
    {
      assert p in changed + others <==> p in changed || p in others;
      assert p in dirty <==> IsDirty(r, p) && isInput(p);
      StampedAt(r, blob, isInput, p);
    }
  }

  /** One path's part in the stamp: a clean input is at HEAD as it is on the disk. */
  lemma StampedAt(r: Repo, blob: Blob, isInput: string -> bool, p: string)
    requires IsRepo(r)
    ensures var stamped := Stamped(r, blob, isInput);
            && (p in stamped <==> isInput(p) && if IsDirty(r, p) then p in r.opens else p in r.head)
            && (p in stamped ==> stamped[p] == blob(if IsDirty(r, p) then r.opens[p] else r.head[p].text))
  {}

  /** `filter`. */
  function Inputs(paths: seq<string>, isInput: string -> bool): (inputs: seq<string>)
    ensures forall p :: p in inputs <==> p in paths && isInput(p)
  {
    if paths == [] then [] else (if isInput(paths[0]) then [paths[0]] else []) + Inputs(paths[1..], isInput)
  }

  method HeadBlobs(ghost head: Tree, ghost blob: Blob, isInput: string -> bool, listing: seq<(string, string)>)
    returns (blobs: map<string, string>)
    requires ListsTree(head, blob, listing)
    ensures blobs == map p | p in head && isInput(p) :: blob(head[p].text)
  {
    blobs := map[];
    for i := 0 to |listing|
      invariant forall p :: p in blobs ==> p in head && isInput(p) && blobs[p] == blob(head[p].text)
      invariant forall j :: 0 <= j < i && isInput(listing[j].0) ==> listing[j].0 in blobs
    {
      assert listing[i] in listing;
      if isInput(listing[i].0) {
        blobs := blobs[listing[i].0 := listing[i].1];
      }
    }
    forall p | p in head && isInput(p)
      ensures p in blobs
    {
      assert (p, blob(head[p].text)) in listing;
    }
  }

  method WithoutDirty(blobs: map<string, string>, dirty: seq<string>) returns (clean: map<string, string>)
    ensures clean == map p | p in blobs && p !in dirty :: blobs[p]
  {
    clean := blobs;
    for i := 0 to |dirty|
      invariant clean == map p | p in blobs && p !in dirty[..i] :: blobs[p]
    {
      assert forall p :: p in dirty[..i + 1] <==> p in dirty[..i] || p == dirty[i];
      clean := clean - {dirty[i]};
    }
    assert dirty[..|dirty|] == dirty;
  }

  method WithPresent(clean: map<string, string>, present: map<string, string>, blob: Blob, dirty: seq<string>)
    returns (blobs: map<string, string>)
    requires forall p :: p in clean ==> p !in dirty
    ensures forall p :: p in blobs <==> p in clean || (p in dirty && p in present)
    ensures forall p :: p in blobs ==> blobs[p] == if p in clean then clean[p] else blob(present[p])
  {
    blobs := clean;
    for i := 0 to |dirty|
      invariant forall p :: p in blobs <==> p in clean || (p in dirty[..i] && p in present)
      invariant forall p :: p in blobs ==> blobs[p] == if p in clean then clean[p] else blob(present[p])
    {
      assert forall p :: p in dirty[..i + 1] <==> p in dirty[..i] || p == dirty[i];
      assert dirty[i] in dirty;
      if dirty[i] in present {
        blobs := blobs[dirty[i] := blob(present[dirty[i]])];
      }
    }
    assert dirty[..|dirty|] == dirty;
  }

  lemma NoLines(blobs: map<string, string>)
    ensures LinesOf([], blobs) == []
  {}

  lemma OneMoreLine(paths: seq<string>, i: nat, blobs: map<string, string>)
    requires i < |paths| && forall p :: p in paths ==> p in blobs
    ensures LinesOf(paths[..i + 1], blobs) == LinesOf(paths[..i], blobs) + [Line(blobs[paths[i]], paths[i])]
  {
    assert paths[..i + 1][..i] == paths[..i];
  }

  method SortedLines(blobs: map<string, string>) returns (lines: seq<string>)
    ensures AreLines(lines, blobs)
  {
    hide LinesOf;
    hide Line;
    NoLines(blobs);
    var keys: seq<string>, rest := [], blobs.Keys;
    while rest != {}
      invariant rest <= blobs.Keys && NoneTwice(keys)
      invariant forall p :: p in keys <==> p in blobs && p !in rest
      decreases rest
    {
      var p :| p in rest;
      rest := rest - {p};
      keys := keys + [p];
    }
    var paths := SortNames(keys);
    lines := [];
    for i := 0 to |paths|
      invariant lines == LinesOf(paths[..i], blobs)
    {
      OneMoreLine(paths, i, blobs);
      lines := lines + [Line(blobs[paths[i]], paths[i])];
    }
    assert paths[..|paths|] == paths;
  }

  // -------------------------------------------------------------------------------------------------------------
  // What a stamp tells
  // -------------------------------------------------------------------------------------------------------------

  /** Object ids have no space, and paths as git prints them no line break. */
  ghost predicate Legible(blobs: map<string, string>) {
    forall p :: p in blobs ==> ' ' !in blobs[p] && '\n' !in p
  }

  lemma {:induction false} LinesAt(paths: seq<string>, blobs: map<string, string>)
    requires forall p :: p in paths ==> p in blobs
    ensures |LinesOf(paths, blobs)| == |paths|
    ensures forall i :: 0 <= i < |paths| ==> LinesOf(paths, blobs)[i] == Line(blobs[paths[i]], paths[i])
    decreases |paths|
  {
    if paths != [] {
      LinesAt(paths[..|paths| - 1], blobs);
    }
  }

  lemma LineTells(id: string, path: string, id': string, path': string)
    requires ' ' !in id && ' ' !in id' && Line(id, path) == Line(id', path')
    ensures id == id' && path == path'
  {
    var line := Line(id, path);
    assert line[|id|] == ' ' && line[|id'|] == ' ';
    assert forall i :: 0 <= i < |id| ==> line[i] == id[i] && id[i] in id;
    assert forall i :: 0 <= i < |id'| ==> line[i] == id'[i] && id'[i] in id';
    assert line[..|id|] == id && line[..|id'|] == id';
    assert line[|id| + 1..] == path + "\n" && line[|id'| + 1..] == path' + "\n";
    assert path == (path + "\n")[..|path|] && path' == (path' + "\n")[..|path'|];
  }

  /** Main result: two stamps are of the same lines exactly when the trees' inputs are the same paths with the same blobs. */
  lemma LinesTellTrees(lines: seq<string>, other: seq<string>, a: map<string, string>, b: map<string, string>)
    requires AreLines(lines, a) && AreLines(other, b) && Legible(a) && Legible(b)
    ensures lines == other <==> a == b
  {
    var paths :| (forall p :: p in paths <==> p in a) && Sorted(paths) && NoneTwice(paths) && lines == LinesOf(paths, a);
    var others :| (forall p :: p in others <==> p in b) && Sorted(others) && NoneTwice(others) && other == LinesOf(others, b);
    if a == b {
      SortedIsUnique(paths, others);
    }
    if lines == other {
      SameLines(paths, others, a, b);
    }
  }

  lemma SameLines(paths: seq<string>, others: seq<string>, a: map<string, string>, b: map<string, string>)
    requires (forall p :: p in paths <==> p in a) && (forall p :: p in others <==> p in b) && Legible(a) && Legible(b)
    requires LinesOf(paths, a) == LinesOf(others, b)
    ensures a == b
  {
    hide LinesOf;
    hide Line;
    LinesAt(paths, a);
    LinesAt(others, b);
    forall i | 0 <= i < |paths|
      ensures paths[i] == others[i] && a[paths[i]] == b[others[i]]
    {
      assert paths[i] in paths && others[i] in others;
      LineTells(a[paths[i]], paths[i], b[others[i]], others[i]);
    }
    assert paths == others;
  }

  /** A sorted list without repetition is determined by its members. */
  lemma {:induction false} SortedIsUnique(a: seq<string>, b: seq<string>)
    requires Sorted(a) && Sorted(b) && NoneTwice(a) && NoneTwice(b) && (forall p :: p in a <==> p in b)
    ensures a == b
    decreases |a|
  {
    SomeMember(a);
    SomeMember(b);
    if a != [] && b != [] {
      FirstIsLeast(a);
      FirstIsLeast(b);
      assert b[0] in a && a[0] in b;
      PrecedesIsTotal(a[0], b[0]);
      assert a[0] == b[0];
      assert a == [a[0]] + a[1..] && b == [b[0]] + b[1..];
      SortedIsUnique(a[1..], b[1..]);
    }
  }

  lemma SomeMember(a: seq<string>)
    ensures a == [] || a[0] in a
  {}

  lemma FirstIsLeast(a: seq<string>)
    requires Sorted(a) && NoneTwice(a) && a != []
    ensures forall p :: p in a ==> Precedes(a[0], p)
    ensures Sorted(a[1..]) && NoneTwice(a[1..])
    ensures forall p :: p in a[1..] <==> p in a && p != a[0]
  {
    assert a == [a[0]] + a[1..];
    PrecedesIsTotal(a[0], a[0]);
  }

  // -------------------------------------------------------------------------------------------------------------
  // Committing the tree
  // -------------------------------------------------------------------------------------------------------------

  /** `git add -A` and `git commit`: what is on the disk, less what is ignored and not in the index. */
  ghost function Committed(r: Repo): Repo {
    var tree := map p | p in r.disk && (p in r.index || p !in r.ignored) :: r.disk[p];
    r.(head := tree, index := tree.Keys)
  }

  lemma NothingDirty(r: Repo, p: string)
    ensures !IsDirty(Committed(r), p)
    ensures IsVisible(Committed(r), p) <==> p in r.disk && (p in r.index || p !in r.ignored)
  {}

  /** Nothing is dirty exactly when a commit would leave HEAD as it is and the index has all of HEAD's paths. */
  lemma CleanExactly(r: Repo)
    ensures (forall p :: !IsDirty(r, p)) <==> Committed(r).head == r.head && r.head.Keys <= r.index
  {
    var tree := Committed(r).head;
    if tree == r.head && r.head.Keys <= r.index {
      forall p
        ensures !IsDirty(r, p)
      {
        assert p in tree <==> p in r.disk && (p in r.index || p !in r.ignored);
      }
    }
    if forall p :: !IsDirty(r, p) {
      forall p
        ensures p in tree <==> p in r.head
        ensures p in r.head ==> p in r.index && p in tree && tree[p] == r.head[p]
      {
        assert !IsDirty(r, p);
      }
      assert tree == r.head;
    }
  }

  /** At HEAD and on the disk still, ignored and out of the index: git lists it as deleted, and after the commit no more. */
  predicate IsLeftBehind(r: Repo, p: string) { p in r.head && p in r.disk && p !in r.index && p in r.ignored }

  /** A dirty link is stamped by what it leads to, and committed as the path it names. */
  predicate LeadsElsewhere(r: Repo, blob: Blob, p: string) {
    && p in r.disk && IsDirty(r, p) && r.disk[p].mode.Link?
    && (p !in r.opens || blob(r.opens[p]) != blob(r.disk[p].text))
  }

  /** The inputs whose part in the stamp a commit of the tree changes. */
  predicate Unsettled(r: Repo, blob: Blob, p: string) {
    if IsLeftBehind(r, p) then p in r.opens else LeadsElsewhere(r, blob, p)
  }

  lemma SameAt(r: Repo, blob: Blob, isInput: string -> bool, p: string)
    requires IsRepo(r) && isInput(p)
    ensures var before, after := Stamped(r, blob, isInput), Stamped(Committed(r), blob, isInput);
            Unsettled(r, blob, p) <==>
            ((p in before) != (p in after) || (p in before && p in after && before[p] != after[p]))
  {
    NothingDirty(r, p);
  }

  /**
   * Main result: committing the whole tree leaves the lines hashed as they were exactly when no input at HEAD is on the
   * disk still while ignored and out of the index (unless it is a link to nothing), and no other dirty input is a link
   * to anything but its own text.
   */
  lemma SurvivesCommitExactly(r: Repo, blob: Blob, isInput: string -> bool, before: seq<string>, after: seq<string>)
    requires IsRepo(r) && (forall text :: ' ' !in blob(text)) && forall p :: isInput(p) ==> '\n' !in p
    requires AreLines(before, Stamped(r, blob, isInput)) && AreLines(after, Stamped(Committed(r), blob, isInput))
    ensures before == after <==> forall p :: isInput(p) ==> !Unsettled(r, blob, p)
  {
    hide AreLines;
    hide Committed;
    var a, b := Stamped(r, blob, isInput), Stamped(Committed(r), blob, isInput);
    LinesTellTrees(before, after, a, b);
    forall p | isInput(p)
      ensures Unsettled(r, blob, p) <==> ((p in a) != (p in b) || (p in a && p in b && a[p] != b[p]))
    {
      SameAt(r, blob, isInput, p);
    }
    forall p | p in a || p in b
      ensures isInput(p)
    {}
    if forall p :: isInput(p) ==> !Unsettled(r, blob, p) {
      assert a.Keys == b.Keys;
    }
  }

  /** A source untracked with `git rm --cached` and ignored, and left on the disk: its commit takes it out of the stamp. */
  lemma LeftBehindChanges(p: string, text: string, blob: Blob)
    ensures var r := Repo(map[p := Entry(Plain, text)], {}, map[p := Entry(Plain, text)], map[p := text], {p});
            && IsRepo(r) && Unsettled(r, blob, p)
            && Stamped(r, blob, _ => true) == map[p := blob(text)] && Stamped(Committed(r), blob, _ => true) == map[]
  {
    var r := Repo(map[p := Entry(Plain, text)], {}, map[p := Entry(Plain, text)], map[p := text], {p});
    NothingDirty(r, p);
    assert IsDirty(r, p);
  }

  /** A new link to a file: stamped by the file's bytes, and once committed by the path. */
  lemma NewLinkChanges(p: string, target: string, text: string, blob: Blob)
    requires blob(text) != blob(target)
    ensures var r := Repo(map[], {}, map[p := Entry(Link, target)], map[p := text], {});
            && IsRepo(r) && Unsettled(r, blob, p)
            && Stamped(r, blob, _ => true) == map[p := blob(text)]
            && Stamped(Committed(r), blob, _ => true) == map[p := blob(target)]
  {
    var r := Repo(map[], {}, map[p := Entry(Link, target)], map[p := text], {});
    NothingDirty(r, p);
    assert IsDirty(r, p);
  }
}
