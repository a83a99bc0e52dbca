/**
 * Which helpers of a test file only read (`isReadHelper` with `isRead`, scripts/test-census.ts): a depth-first search
 * over the file's call graph with a memo, which records a provisional `false` for a helper before its body is looked at.
 *
 * The reference is the graph: a helper only reads when it is declared, and neither an acting call nor a cycle of helpers
 * can be reached from it.
 */
module ReadHelpers {
  import opened Arithmetic

  /** An expression as the census sees it, parentheses and casts taken off. */
  datatype Expr =
    | Literal
    | Name
    | Property(of: Expr)
    | Index(of: Expr, at: Expr)
    | TypeOf(of: Expr)
    | Await(of: Expr)
      // `of.m(args)`: whether `m` is a query method, and whether its name says it builds the subject
    | Method(of: Expr, query: bool, builds: bool, args: seq<Expr>)
      // `name(args)`: whether the name says it builds the subject, and whether it is one of the cast functions
    | Call(name: string, builds: bool, cast: bool, args: seq<Expr>)
      // any other call
    | Computed(callee: Expr, args: seq<Expr>)
    | New(args: seq<Expr>)
    | Function(parts: seq<Expr>)
    | Other(parts: seq<Expr>)

  predicate IsCall(e: Expr) { e.Method? || e.Call? || e.Computed? }

  predicate IsLiteral(e: Expr) { e.Literal? || (e.Await? && IsLiteral(e.of)) }

  predicate IsConstruction(e: Expr) {
    e.New? || (e.Method? && e.builds) || (e.Call? && e.builds) || (e.Await? && IsConstruction(e.of))
  }

  predicate SomeNotLiteral(args: seq<Expr>) { exists a :: a in args && !IsLiteral(a) }

  function Parts(e: Expr): seq<Expr> {
    match e
    case Literal => []
    case Name => []
    case Property(of) => [of]
    case Index(of, at) => [of, at]
    case TypeOf(of) => [of]
    case Await(of) => [of]
    case Method(of, _, _, args) => [of] + args
    case Call(_, _, _, args) => args
    case Computed(callee, args) => [callee] + args
    case New(args) => args
    case Function(parts) => parts
    case Other(parts) => parts
  }

  // -------------------------------------------------------------------------------------------------------------
  // What reading means, given the helpers that only read
  // -------------------------------------------------------------------------------------------------------------

  ghost predicate Reads(e: Expr, readers: iset<string>)
    decreases e, 0
  {
    match e
    case Await(of) => !IsCall(of) && !of.New? && Reads(of, readers)
    case Literal => true
    case Name => true
    case Property(of) => Reads(of, readers)
    case Index(of, at) => Reads(of, readers) && Reads(at, readers)
    case TypeOf(of) => Reads(of, readers)
    case Method(of, query, _, args) =>
      Reads(of, readers) && (args == [] || (query && forall a :: a in args ==> ReadsAsArgument(a, readers)))
    case Call(name, builds, cast, args) =>
      && !builds && (forall a :: a in args ==> ReadsAsArgument(a, readers))
      && (cast || (SomeNotLiteral(args) && name in readers))
    case _ => false
  }

  ghost predicate ReadsAsArgument(e: Expr, readers: iset<string>)
    decreases e, 1
  {
    IsLiteral(e) || Reads(e, readers) || IsConstruction(e) || e.Function?
  }

  /** No call anywhere in it but reads. */
  ghost predicate OnlyReads(e: Expr, readers: iset<string>)
    decreases e, 2
  {
    (IsCall(e) ==> Reads(e, readers)) && forall p :: p in Parts(e) ==> PartOf(p, e) && OnlyReads(p, readers)
  }

  /** Parts are smaller. */
  predicate PartOf(p: Expr, e: Expr)
    requires p in Parts(e)
    ensures p < e
  {
    true
  }

  /** What is awaited, however often. */
  function Awaited(e: Expr): Expr { if e.Await? then Awaited(e.of) else e }

  /** It builds the subject: by `new`, or by a call whose name says so. */
  predicate Builds(e: Expr) { e.New? || ((e.Method? || e.Call?) && e.builds) }

  lemma {:induction false} AwaitedDecides(e: Expr)
    ensures IsLiteral(e) <==> Awaited(e).Literal?
    ensures IsConstruction(e) <==> Builds(Awaited(e))
    decreases e
  {
    if e.Await? {
      AwaitedDecides(e.of);
    }
  }

  /** What makes an expression act by itself, whatever its parts do. */
  ghost predicate Offends(e: Expr, readers: iset<string>) {
    match e
    case Await(of) => of.Method? || of.Call? || of.Computed? || of.New?
    case Method(_, query, _, args) => args != [] && !query
    case Call(name, builds, cast, args) =>
      builds || (!cast && (name !in readers || forall a :: a in args ==> Awaited(a).Literal?))
    case Computed(_, _) => true
    case New(_) => true
    case Function(_) => true
    case Other(_) => true
    case _ => false
  }

  /** A part that has to read too: not a literal, a subject built or a function given as an argument. */
  predicate MustRead(p: Expr, e: Expr)
    requires p in Parts(e)
  {
    if (e.Method? && p != e.of) || e.Call? then !Awaited(p).Literal? && !Builds(Awaited(p)) && !p.Function? else true
  }

  /** Somewhere in what has to read, something acts. */
  ghost predicate HasOffender(e: Expr, readers: iset<string>)
    decreases e
  {
    Offends(e, readers) || exists p :: p in Parts(e) && PartOf(p, e) && MustRead(p, e) && HasOffender(p, readers)
  }

  /** Main result: an expression reads exactly when nothing in it that has to read acts. */
  lemma {:induction false} ReadsExactly(e: Expr, readers: iset<string>)
    ensures Reads(e, readers) <==> !HasOffender(e, readers)
    decreases e
  {
    forall p | p in Parts(e)
      ensures Reads(p, readers) <==> !HasOffender(p, readers)
    {
      assert PartOf(p, e);
      ReadsExactly(p, readers);
    }
    forall p | p in Parts(e)
      ensures IsLiteral(p) <==> Awaited(p).Literal?
      ensures IsConstruction(p) <==> Builds(Awaited(p))
    {
      AwaitedDecides(p);
    }
    var parts := Parts(e);
    assert forall p :: p in parts ==> PartOf(p, e);
    match e
    case Method(of, _, _, args) => assert of in Parts(e) && forall a :: a in args ==> a in Parts(e);
    case _ =>
  }

  /** `p` is the expression or stands somewhere in it. */
  ghost predicate Inside(p: Expr, e: Expr)
    decreases e
  {
    p == e || exists q :: q in Parts(e) && PartOf(q, e) && Inside(p, q)
  }

  ghost predicate EveryCallReads(e: Expr, readers: iset<string>) {
    forall p :: Inside(p, e) && (p.Method? || p.Call? || p.Computed?) ==> Reads(p, readers)
  }

  lemma EveryCallByParts(e: Expr, readers: iset<string>)
    ensures EveryCallReads(e, readers) <==>
            && (e.Method? || e.Call? || e.Computed? ==> Reads(e, readers))
            && forall q :: q in Parts(e) ==> EveryCallReads(q, readers)
  {
    hide Reads;
    hide Parts;
    assert Inside(e, e);
    forall q, p | q in Parts(e) && Inside(p, q)
      ensures Inside(p, e)
    {
      assert PartOf(q, e);
    }
  }

  /** Main result: a body only reads exactly when every call that stands anywhere in it reads. */
  lemma {:induction false} OnlyReadsExactly(e: Expr, readers: iset<string>)
    ensures OnlyReads(e, readers) <==> EveryCallReads(e, readers)
    decreases e
  {
    hide Reads;
    hide Parts;
    hide EveryCallReads;
    EveryCallByParts(e, readers);
    forall q | q in Parts(e)
      ensures PartOf(q, e)
      ensures OnlyReads(q, readers) <==> EveryCallReads(q, readers)
    {
      assert PartOf(q, e);
      OnlyReadsExactly(q, readers);
    }
  }

  /** The same kind of expression, its parts aside. */
  predicate SameKind(e: Expr, f: Expr) {
    match (e, f)
    case (Literal, Literal) => true
    case (Name, Name) => true
    case (Property(_), Property(_)) => true
    case (Index(_, _), Index(_, _)) => true
    case (TypeOf(_), TypeOf(_)) => true
    case (Await(_), Await(_)) => true
    case (Method(_, q, b, _), Method(_, r, c, _)) => q == r && b == c
    case (Call(m, b, c, _), Call(n, d, k, _)) => m == n && b == d && c == k
    case (Computed(_, _), Computed(_, _)) => true
    case (New(_), New(_)) => true
    case (Function(_), Function(_)) => true
    case (Other(_), Other(_)) => true
    case _ => false
  }

  /** Nothing in an expression is passed over: its kind and its parts are all of it. */
  lemma PartsAreAll(e: Expr, f: Expr)
    requires SameKind(e, f) && Parts(e) == Parts(f)
    ensures e == f
  {
    var p, q := Parts(e), Parts(f);
    assert p != [] ==> p[0] == q[0] && p[1..] == q[1..];
    match e
    case Method(of, _, _, args) => assert p[0] == of && p[1..] == args && q[1..] == f.args;
    case Computed(callee, args) => assert p[0] == callee && p[1..] == args && q[1..] == f.args;
    case _ =>
  }

  /** The helpers whose answer decides whether the expression reads. */
  ghost predicate AsksToRead(e: Expr, h: string)
    decreases e, 0
  {
    match e
    case Await(of) => AsksToRead(of, h)
    case Property(of) => AsksToRead(of, h)
    case Index(of, at) => AsksToRead(of, h) || AsksToRead(at, h)
    case TypeOf(of) => AsksToRead(of, h)
    case Method(of, _, _, args) => AsksToRead(of, h) || exists a :: a in args && AsksAsArgument(a, h)
    case Call(name, _, cast, args) => (!cast && name == h) || exists a :: a in args && AsksAsArgument(a, h)
    case _ => false
  }

  ghost predicate AsksAsArgument(e: Expr, h: string)
    decreases e, 1
  {
    !IsLiteral(e) && !IsConstruction(e) && !e.Function? && AsksToRead(e, h)
  }

  /** Somewhere in it the helper is called. */
  ghost predicate Calls(e: Expr, h: string)
    decreases e, 2
  {
    (e.Call? && !e.cast && e.name == h) || exists p :: p in Parts(e) && PartOf(p, e) && Calls(p, h)
  }

  ghost function Just(names: set<string>): iset<string> { iset h | h in names }

  ghost const ALL: iset<string> := iset h: string | true

  /** The body acts whatever its helpers do. */
  ghost predicate Acts(e: Expr) { !OnlyReads(e, ALL) }

  lemma {:induction false} ReadsIsAsking(e: Expr, readers: iset<string>)
    ensures Reads(e, readers) <==> Reads(e, ALL) && forall h :: AsksToRead(e, h) ==> h in readers
    decreases e, 0
  {
    match e
    case Literal =>
    case Name =>
    case Property(of) => ReadsIsAsking(of, readers);
    case Index(of, at) => ReadsIsAsking(of, readers); ReadsIsAsking(at, readers);
    case TypeOf(of) => ReadsIsAsking(of, readers);
    case Await(of) => ReadsIsAsking(of, readers);
    case Method(of, _, _, args) => ReadsIsAsking(of, readers); ArgumentsAsk(e, args, readers);
    case Call(_, _, _, args) => ArgumentsAsk(e, args, readers);
    case Computed(_, _) =>
    case New(_) =>
    case Function(_) =>
    case Other(_) =>
  }

  lemma {:induction false} ArgumentsAsk(e: Expr, args: seq<Expr>, readers: iset<string>)
    requires forall a :: a in args ==> a < e
    ensures (forall a :: a in args ==> ReadsAsArgument(a, readers)) <==>
            && (forall a :: a in args ==> ReadsAsArgument(a, ALL))
            && forall h, a :: a in args && AsksAsArgument(a, h) ==> h in readers
    decreases e, 0, 0
  {
    forall a | a in args
      ensures ReadsAsArgument(a, readers) <==>
              ReadsAsArgument(a, ALL) && forall h :: AsksAsArgument(a, h) ==> h in readers
    {
      ReadsIsAsking(a, readers);
    }
  }

  lemma {:induction false} AskedIsCalled(e: Expr, h: string)
    requires AsksToRead(e, h)
    ensures Calls(e, h)
    decreases e
  {
    if p :| p in Parts(e) && PartOf(p, e) && AsksToRead(p, h) {
      AskedIsCalled(p, h);
    } else {
      match e
      case Method(of, _, _, args) =>
        assert of in Parts(e) && PartOf(of, e) && forall a :: a in args ==> a in Parts(e) && PartOf(a, e);
      case Call(_, _, _, args) => assert forall a :: a in args ==> a in Parts(e) && PartOf(a, e);
      case _ =>
    }
  }

  /** A body only reads when it does not act and every helper it calls is a reader. */
  lemma {:induction false} OnlyReadsIsCalling(e: Expr, readers: iset<string>)
    ensures OnlyReads(e, readers) <==> !Acts(e) && forall h :: Calls(e, h) ==> h in readers
    decreases e
  {
    ReadsIsAsking(e, readers);
    forall h | AsksToRead(e, h)
      ensures Calls(e, h)
    {
      AskedIsCalled(e, h);
    }
    forall p | p in Parts(e)
      ensures OnlyReads(p, readers) <==> OnlyReads(p, ALL) && forall h :: Calls(p, h) ==> h in readers
      ensures forall h :: Calls(p, h) ==> Calls(e, h)
    {
      assert PartOf(p, e);
      OnlyReadsIsCalling(p, readers);
    }
  }

  // -------------------------------------------------------------------------------------------------------------
  // The helpers of a file
  // -------------------------------------------------------------------------------------------------------------

  /** The helpers a file declares with a body; any other name is no reader. */
  type Helpers = map<string, Expr>

  /** The helpers that only read as far as `n` calls deep can tell. */
  ghost function Level(helpers: Helpers, n: nat): set<string> {
    if n == 0 then {}
    else set h | h in helpers && OnlyReads(helpers[h], Just(Level(helpers, n - 1)))
  }

  /** The helpers that only read. */
  ghost function Readers(helpers: Helpers): set<string> { Level(helpers, |helpers|) }

  lemma {:induction false} LevelsGrow(helpers: Helpers, n: nat)
    ensures Level(helpers, n) <= Level(helpers, n + 1) <= helpers.Keys
  {
    if n > 0 {
      LevelsGrow(helpers, n - 1);
      forall h | h in Level(helpers, n)
        ensures h in Level(helpers, n + 1)
      {
        OnlyReadsIsCalling(helpers[h], Just(Level(helpers, n - 1)));
        OnlyReadsIsCalling(helpers[h], Just(Level(helpers, n)));
      }
    }
  }

  /** The levels stop growing, or have one more helper each time. */
  lemma {:induction false} LevelsFillUp(helpers: Helpers, n: nat)
    ensures Level(helpers, n) == Level(helpers, n + 1) || |Level(helpers, n + 1)| >= n + 1
  {
    LevelsGrow(helpers, n);
    SubsetIsSmaller(Level(helpers, n), Level(helpers, n + 1));
    if n > 0 {
      LevelsFillUp(helpers, n - 1);
    }
  }

  lemma ReadersAreSettled(helpers: Helpers)
    ensures Readers(helpers) == Level(helpers, |helpers| + 1)
  {
    var n := |helpers|;
    LevelsGrow(helpers, n);
    LevelsFillUp(helpers, n);
    SubsetIsSmaller(Level(helpers, n + 1), helpers.Keys);
  }

  /** A helper only reads when it is declared, does not act, and calls only helpers that only read. */
  lemma ReaderIsStep(helpers: Helpers, h: string)
    ensures h in Readers(helpers) <==> h in helpers && OnlyReads(helpers[h], Just(Readers(helpers)))
    ensures h in Readers(helpers) <==>
            h in helpers && !Acts(helpers[h]) && forall k :: Calls(helpers[h], k) ==> k in Readers(helpers)
  {
    ReadersAreSettled(helpers);
    if h in helpers {
      OnlyReadsIsCalling(helpers[h], Just(Readers(helpers)));
    }
  }

  // -------------------------------------------------------------------------------------------------------------
  // The call graph
  // -------------------------------------------------------------------------------------------------------------

  /** Each helper on it is declared, and calls the next. */
  ghost predicate Path(helpers: Helpers, path: seq<string>) {
    && path != []
    && (forall i :: 0 <= i < |path| - 1 ==> path[i] in helpers && Calls(helpers[path[i]], path[i + 1]))
  }

  /** From `h` a call leads to a helper that is not declared or acts, or to a cycle. */
  ghost predicate ReachesTrouble(helpers: Helpers, h: string) {
    exists path :: Path(helpers, path) && path[0] == h && Trouble(helpers, path)
  }

  ghost predicate Trouble(helpers: Helpers, path: seq<string>)
    requires path != []
  {
    var last := path[|path| - 1];
    last !in helpers || Acts(helpers[last]) || last in path[..|path| - 1]
  }

  /** Along a path the readers' levels fall. */
  lemma {:induction false} LevelsFall(helpers: Helpers, path: seq<string>, n: nat)
    requires Path(helpers, path) && path[0] in Level(helpers, n)
    ensures n >= |path| && forall i :: 0 <= i < |path| ==> path[i] in Level(helpers, n - i)
    decreases |path|
  {
    if |path| > 1 {
      OnlyReadsIsCalling(helpers[path[0]], Just(Level(helpers, n - 1)));
      assert Calls(helpers[path[0]], path[0 + 1]);
      LevelsFall(helpers, path[1..], n - 1);
      assert forall i :: 1 <= i < |path| ==> path[i] == path[1..][i - 1];
    }
  }

  lemma {:induction false} NoReaderOnACycle(helpers: Helpers, cycle: seq<string>, n: nat)
    requires Path(helpers, cycle) && |cycle| > 1 && cycle[0] == cycle[|cycle| - 1]
    ensures cycle[0] !in Level(helpers, n)
    decreases n
  {
    if cycle[0] in Level(helpers, n) {
      LevelsFall(helpers, cycle, n);
      NoReaderOnACycle(helpers, cycle, n - (|cycle| - 1));
    }
  }

  lemma ReaderReachesNoTrouble(helpers: Helpers, path: seq<string>)
    requires Path(helpers, path) && Trouble(helpers, path)
    ensures path[0] !in Readers(helpers)
  {
    var n := |helpers|;
    if path[0] in Level(helpers, n) {
      LevelsFall(helpers, path, n);
      var last := path[|path| - 1];
      OnlyReadsIsCalling(helpers[last], Just(Level(helpers, n - |path|)));
      var i :| 0 <= i < |path| - 1 && path[i] == last;
      assert Path(helpers, path[i..]);
      NoReaderOnACycle(helpers, path[i..], n - i);
    }
  }

  predicate Distinct(path: seq<string>) { forall i, j :: 0 <= i < j < |path| ==> path[i] != path[j] }

  lemma {:induction false} DistinctFits(path: seq<string>, s: set<string>)
    requires Distinct(path) && forall h :: h in path ==> h in s
    ensures |path| <= |s|
    decreases |path|
  {
    if path != [] {
      var last := path[|path| - 1];
      assert forall h :: h in path[..|path| - 1] ==> h in s - {last};
      DistinctFits(path[..|path| - 1], s - {last});
    }
  }

  /** From a helper that is no reader, calls of helpers that are none lead on until there is trouble. */
  lemma {:induction false} FollowToTrouble(helpers: Helpers, path: seq<string>) returns (longer: seq<string>)
    requires Path(helpers, path) && Distinct(path) && path[|path| - 1] !in Readers(helpers)
    requires forall i :: 0 <= i < |path| - 1 ==> path[i] in helpers
    ensures Path(helpers, longer) && longer[0] == path[0] && Trouble(helpers, longer)
    decreases |helpers| + 1 - |path|
  {
    var last := path[|path| - 1];
    if Trouble(helpers, path) {
      longer := path;
    } else {
      ReaderIsStep(helpers, last);
      var next :| Calls(helpers[last], next) && next !in Readers(helpers);
      longer := path + [next];
      assert longer[..|path|] == path;
      assert forall h :: h in path ==> h in helpers.Keys;
      DistinctFits(path, helpers.Keys);
      if next !in path {
        longer := FollowToTrouble(helpers, longer);
      }
    }
  }

  /**
   * Main result about the reference: a helper only reads exactly when no call leads from it to a helper that is not
   * declared, to an acting one, or into a cycle.
   */
  lemma ReadersReachNoTrouble(helpers: Helpers, h: string)
    ensures h in Readers(helpers) <==> !ReachesTrouble(helpers, h)
  {
    if h !in Readers(helpers) {
      var path := FollowToTrouble(helpers, [h]);
    }
    forall path | Path(helpers, path) && path[0] == h && Trouble(helpers, path)
      ensures h !in Readers(helpers)
    {
      ReaderReachesNoTrouble(helpers, path);
    }
  }

  // -------------------------------------------------------------------------------------------------------------
  // The search
  // -------------------------------------------------------------------------------------------------------------

  /** What is looked at is part of the topmost body. */
  ghost predicate Within(helpers: Helpers, e: Expr, stack: seq<string>) {
    stack != [] ==>
      stack[|stack| - 1] in helpers && forall h :: Calls(e, h) ==> Calls(helpers[stack[|stack| - 1]], h)
  }

  /** The context of one test file. `stack` below is the chain of helpers whose bodies are being looked at. */
  class Context {
    const helpers: Helpers
    var readOnly: map<string, bool>

    /** Answers kept are right, but for the helpers on the stack, which have the provisional `false`. */
    ghost predicate Valid(stack: seq<string>)
      reads this
    {
      && readOnly.Keys <= helpers.Keys
      && (stack != [] ==> Path(helpers, stack))
      && (forall h :: h in stack ==> h in readOnly && !readOnly[h])
      && (forall h :: h in readOnly && h !in stack ==> (readOnly[h] <==> h in Readers(helpers)))
    }

    constructor (helpers: Helpers)
      ensures this.helpers == helpers && readOnly == map[] && Valid([])
    {
      this.helpers := helpers;
      readOnly := map[];
    }

    lemma PartsWithin(e: Expr, stack: seq<string>)
      requires Within(helpers, e, stack)
      ensures forall p :: p in Parts(e) ==> Within(helpers, p, stack) && p < e
    {
      forall p | p in Parts(e)
        ensures PartOf(p, e) && forall h :: Calls(p, h) ==> Calls(e, h)
      {
        assert PartOf(p, e);
      }
    }

    /** A helper found on the stack is on a cycle, so its provisional answer is right. */
    lemma StackIsACycle(stack: seq<string>, name: string)
      requires stack != [] && Path(helpers, stack) && name in stack
      requires stack[|stack| - 1] in helpers && Calls(helpers[stack[|stack| - 1]], name)
      ensures name !in Readers(helpers)
    {
      var i :| 0 <= i < |stack| && stack[i] == name;
      var cycle := stack[i..] + [name];
      forall j | 0 <= j < |cycle| - 1
        ensures cycle[j] in helpers && Calls(helpers[cycle[j]], cycle[j + 1])
      {
        if j < |cycle| - 2 {
          assert cycle[j] == stack[i + j] && cycle[j + 1] == stack[i + j + 1];
        }
      }
      NoReaderOnACycle(helpers, cycle, |helpers|);
    }

    /** Main result: whatever was asked before, the answer is whether the helper only reads. */
    method IsReadHelper(name: string, ghost stack: seq<string>) returns (pure: bool)
      requires Valid(stack)
      requires stack != [] ==> stack[|stack| - 1] in helpers && Calls(helpers[stack[|stack| - 1]], name)
      modifies this
      ensures Valid(stack) && old(readOnly.Keys) <= readOnly.Keys
      ensures pure <==> name in Readers(helpers)
      decreases helpers.Keys - readOnly.Keys, 0
    {
      if name in readOnly {
        if name in stack {
          StackIsACycle(stack, name);
        }
        return readOnly[name];
      }
      ReaderIsStep(helpers, name);
      if name !in helpers {
        return false;
      }
      assert name in helpers.Keys - readOnly.Keys;
      readOnly := readOnly[name := false];
      assert helpers.Keys - readOnly.Keys < old(helpers.Keys - readOnly.Keys);
      pure := Visit(helpers[name], stack + [name]);
      readOnly := readOnly[name := pure];
    }

    /** Whether no call in the node but reads. */
    method Visit(e: Expr, ghost stack: seq<string>) returns (pure: bool)
      requires Valid(stack) && Within(helpers, e, stack)
      modifies this
      ensures Valid(stack) && old(readOnly.Keys) <= readOnly.Keys
      ensures pure <==> OnlyReads(e, Just(Readers(helpers)))
      decreases helpers.Keys - readOnly.Keys, 1, e, 2
    {
      PartsWithin(e, stack);
      if IsCall(e) {
        var read := IsRead(e, stack);
        if !read {
          return false;
        }
      }
      var parts := Parts(e);
      assert forall p :: p in parts ==> PartOf(p, e);
      for i := 0 to |parts|
        invariant Valid(stack) && old(readOnly.Keys) <= readOnly.Keys
        invariant forall k :: 0 <= k < i ==> OnlyReads(parts[k], Just(Readers(helpers)))
      {
        pure := Visit(parts[i], stack);
        if !pure {
          return false;
        }
      }
      pure := true;
    }

    method IsRead(e: Expr, ghost stack: seq<string>) returns (read: bool)
      requires Valid(stack) && Within(helpers, e, stack)
      modifies this
      ensures Valid(stack) && old(readOnly.Keys) <= readOnly.Keys
      ensures read <==> Reads(e, Just(Readers(helpers)))
      decreases helpers.Keys - readOnly.Keys, 1, e, 0
    {
      PartsWithin(e, stack);
      match e
      case Await(of) =>
        if IsCall(of) || of.New? {
          return false;
        }
        read := IsRead(of, stack);
      case Literal => return true;
      case Name => return true;
      case Property(of) => read := IsRead(of, stack);
      case Index(of, at) =>
        read := IsRead(of, stack);
        if read {
          read := IsRead(at, stack);
        }
      case TypeOf(of) => read := IsRead(of, stack);
      case Method(of, query, _, args) =>
        read := IsRead(of, stack);
        if read && args != [] {
          if !query {
            return false;
          }
          read := AreReadArguments(e, args, stack);
        }
      case Call(name, builds, cast, args) =>
        if builds {
          return false;
        }
        read := AreReadArguments(e, args, stack);
        if read && !cast {
          if !SomeNotLiteral(args) {
            return false;
          }
          assert Calls(e, name);
          read := IsReadHelper(name, stack);
        }
      case Computed(_, _) => return false;
      case New(_) => return false;
      case Function(_) => return false;
      case Other(_) => return false;
    }

    method AreReadArguments(ghost e: Expr, args: seq<Expr>, ghost stack: seq<string>) returns (read: bool)
      requires Valid(stack) && forall a :: a in args ==> Within(helpers, a, stack) && a < e
      modifies this
      ensures Valid(stack) && old(readOnly.Keys) <= readOnly.Keys
      ensures read <==> forall a :: a in args ==> ReadsAsArgument(a, Just(Readers(helpers)))
      decreases helpers.Keys - readOnly.Keys, 1, e, 0, 0
    {
      for i := 0 to |args|
        invariant Valid(stack) && old(readOnly.Keys) <= readOnly.Keys
        invariant forall k :: 0 <= k < i ==> ReadsAsArgument(args[k], Just(Readers(helpers)))
      {
        assert args[i] in args;
        assert helpers.Keys - readOnly.Keys <= old(helpers.Keys - readOnly.Keys);
        read := IsReadArgument(args[i], stack);
        if !read {
          return false;
        }
      }
      read := true;
    }

    method IsReadArgument(e: Expr, ghost stack: seq<string>) returns (read: bool)
      requires Valid(stack) && Within(helpers, e, stack)
      modifies this
      ensures Valid(stack) && old(readOnly.Keys) <= readOnly.Keys
      ensures read <==> ReadsAsArgument(e, Just(Readers(helpers)))
      decreases helpers.Keys - readOnly.Keys, 1, e, 1
    {
      if IsLiteral(e) {
        return true;
      }
      read := IsRead(e, stack);
      read := read || IsConstruction(e) || e.Function?;
    }

    /** Helpers asked one after another, in any order: each answer is the reference's. */
    method AskAll(names: seq<string>) returns (answers: seq<bool>)
      requires Valid([])
      modifies this
      ensures Valid([]) && |answers| == |names|
      ensures forall i :: 0 <= i < |names| ==> (answers[i] <==> !ReachesTrouble(helpers, names[i]))
    {
      answers := [];
      for i := 0 to |names|
        invariant Valid([]) && |answers| == i
        invariant forall k :: 0 <= k < i ==> (answers[k] <==> !ReachesTrouble(helpers, names[k]))
      {
        var pure := IsReadHelper(names[i], []);
        ReadersReachNoTrouble(helpers, names[i]);
        answers := answers + [pure];
      }
    }
  }
}
