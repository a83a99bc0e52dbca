/**
 * The quiet lock of scripts/stack.ts: any number of processes take shared and exclusive holds through the files of one
 * `heavy/` directory, in any interleaving, and any of them may crash at any point.
 *
 * One action is one file-system call (or one liveness probe) of one call to `acquireShared` or `acquireExclusive`.
 * `wx` create, `link`, `rename` and `unlink` are atomic, a hold's text is unique (it carries a UUID), a pid is never
 * reused, and a `.lock` is broken as stale only once its holder is dead.
 */
module QuietLock {
  import opened Wrappers

  datatype Kind = Shared | Exclusive

  /** One call of `acquireShared` or `acquireExclusive`; as a value it is also the text of the hold file it writes. */
  datatype Call = Call(kind: Kind, pid: nat, worktree: string, step: string, uuid: nat)

  /** `shared-<pid>-<label>`, the label as `acquireShared` has made it fit for a file name. */
  datatype Name = Name(pid: nat, step: string)

  function NameOf(c: Call): Name { Name(c.pid, c.step) }

  /** Where `liveQuiet` was called from. */
  datatype After = FirstLook | SecondLook | CreateAgain

  /** Where a call is inside `liveQuiet`; `seen` is the text it read. */
  datatype Look =
    | ReadQuiet
    | Judge(seen: Call)
    | TakeLock(seen: Call)
    | Reread(seen: Call)
    | RemoveQuiet(seen: Call)
    | Unlock

  datatype Phase =
    | Idle
    | Looking(after: After, look: Look)
      // acquireShared
    | WriteHold
    | Withdraw
    | GiveUp
      // acquireExclusive
    | CreateQuiet
    | Drain
    | Scan(left: set<Name>)
    | ScanJudge(left: set<Name>, name: Name, found: Call)
    | ScanRemove(left: set<Name>, name: Name)
      // the hold it returned, and its release
    | Held(quiet: bool, created: bool)
    | ReleaseRemove
    | Done

  /**
   * `crowded` is history: the shared calls that were under way together with another call of the same process under the
   * same label, so that both used one file name, or under way when such a call, long done, was released once more.
   */
  datatype State = State(
    dead: set<nat>,
    quiet: Option<Call>,
    shared: map<Name, Call>,
    lock: Option<Call>,
    phase: map<Call, Phase>,
    crowded: set<Call>)

  const INITIAL := State({}, None, map[], None, map[], {})

  /** `timedOut` is what the clock says when a wait asks it; `pick` is the next entry of a directory listing. */
  datatype Action =
    | Act(call: Call, timedOut: bool, pick: Name)
    | Crash(pid: nat)
    | BreakStaleLock

  function At(s: State, c: Call): Phase { if c in s.phase then s.phase[c] else Idle }

  predicate Alive(s: State, c: Call) { c.pid !in s.dead }

  predicate Active(s: State, c: Call) { At(s, c) != Idle && At(s, c) != Done }

  /** The active shared calls that use `c`'s file name. */
  function Twins(s: State, c: Call): set<Call> {
    set d | d in s.phase && d.kind == Shared && d != c && NameOf(d) == NameOf(c) && Active(s, d)
  }

  /** What a call does once `liveQuiet` (with `quietElsewhere` around it) answered. */
  function Answered(after: After, busy: bool, timedOut: bool): Phase {
    match after
    case FirstLook => if !busy then WriteHold else if timedOut then GiveUp else Looking(FirstLook, ReadQuiet)
    case SecondLook => if busy then Withdraw else Held(true, true)
    case CreateAgain => if timedOut then Held(false, false) else CreateQuiet
  }

  /** The next phase inside `liveQuiet`. */
  function Looked(s: State, c: Call, after: After, look: Look, timedOut: bool): Phase {
    match look
    case ReadQuiet =>
      if s.quiet.None? then Answered(after, false, timedOut) else Looking(after, Judge(s.quiet.value))
    case Judge(seen) =>
      if Alive(s, seen) then Answered(after, seen.worktree != c.worktree, timedOut) else Looking(after, TakeLock(seen))
    case TakeLock(seen) => Looking(after, if s.lock.None? then Reread(seen) else look)
    case Reread(seen) => Looking(after, if s.quiet == Some(seen) then RemoveQuiet(seen) else Unlock)
    case RemoveQuiet(seen) => Looking(after, Unlock)
    case Unlock => Answered(after, false, timedOut)
  }

  /** The phase a call's step takes it to. */
  function PhaseAfter(s: State, c: Call, timedOut: bool, pick: Name): Phase {
    match At(s, c)
    case Idle => if c.kind == Shared then Looking(FirstLook, ReadQuiet) else CreateQuiet
    case Looking(after, look) => Looked(s, c, after, look, timedOut)
    case WriteHold => Looking(SecondLook, ReadQuiet)
    case Withdraw => if timedOut then GiveUp else Looking(FirstLook, ReadQuiet)
    case GiveUp => Held(false, true)
    case CreateQuiet => if s.quiet.None? then Drain else Looking(CreateAgain, ReadQuiet)
    case Drain => Scan(s.shared.Keys)
    case Scan(left) =>
      if left == {} then Held(true, true)
      else if pick !in left then Scan(left)
      else if pick in s.shared then ScanJudge(left - {pick}, pick, s.shared[pick])
      else Scan(left - {pick})
    case ScanJudge(left, name, found) =>
      if !Alive(s, found) then ScanRemove(left, name)
      else if found.worktree == c.worktree then Scan(left)
      else if timedOut then Held(false, true)
      else Drain
    case ScanRemove(left, _) => Scan(left)
    case Held(_, created) => if c.kind == Exclusive && created && s.quiet == Some(c) then ReleaseRemove else Done
    case ReleaseRemove => Done
    case Done => Done
  }

  /** The `quiet` file after a call's step. */
  function QuietAfter(s: State, c: Call): Option<Call> {
    match At(s, c)
    case CreateQuiet => if s.quiet.None? then Some(c) else s.quiet
    case Looking(_, RemoveQuiet(_)) => None
    case ReleaseRemove => None
    case _ => s.quiet
  }

  /** The `shared-` files after a call's step. */
  function SharedAfter(s: State, c: Call): map<Name, Call> {
    match At(s, c)
    case WriteHold => s.shared[NameOf(c) := c]
    case GiveUp => s.shared[NameOf(c) := c]
    case Withdraw => s.shared - {NameOf(c)}
    case ScanRemove(_, name) => s.shared - {name}
    case Held(_, _) => if c.kind == Shared then s.shared - {NameOf(c)} else s.shared
      // released again
    case Done => if c.kind == Shared then s.shared - {NameOf(c)} else s.shared
    case _ => s.shared
  }

  /** The `.lock` file after a call's step. */
  function LockAfter(s: State, c: Call): Option<Call> {
    match At(s, c)
    case Looking(_, TakeLock(_)) => if s.lock.None? then Some(c) else s.lock
    case Looking(_, Unlock) => if s.lock == Some(c) then None else s.lock
    case _ => s.lock
  }

  function CrowdedAfter(s: State, c: Call): set<Call> {
    if c.kind == Exclusive || Twins(s, c) == {} then s.crowded
    else if At(s, c) == Idle then s.crowded + Twins(s, c) + {c}
    else if At(s, c) == Done then s.crowded + Twins(s, c)
    else s.crowded
  }

  function CallStep(s: State, c: Call, timedOut: bool, pick: Name): State {
    State(s.dead, QuietAfter(s, c), SharedAfter(s, c), LockAfter(s, c),
          s.phase[c := PhaseAfter(s, c, timedOut, pick)], CrowdedAfter(s, c))
  }

  /** One action; an action of a dead process, or one that must wait, changes nothing. */
  function Next(s: State, a: Action): State {
    match a
    case Crash(pid) => s.(dead := s.dead + {pid})
    case BreakStaleLock => if s.lock.Some? && !Alive(s, s.lock.value) then s.(lock := None) else s
    case Act(c, timedOut, pick) => if Alive(s, c) then CallStep(s, c, timedOut, pick) else s
  }

  function Exec(s: State, run: seq<Action>): State
    decreases |run|
  {
    if run == [] then s else Exec(Next(s, run[0]), run[1..])
  }

  // -------------------------------------------------------------------------------------------------------------
  // The invariant
  // -------------------------------------------------------------------------------------------------------------

  /** The call created `quiet` and has not released it. */
  predicate Owns(p: Phase) {
    p.Drain? || p.Scan? || p.ScanJudge? || p.ScanRemove? || (p.Held? && p.created) || p.ReleaseRemove?
  }

  /** The shared call has its file on disk. */
  predicate HasFile(p: Phase) {
    (p.Looking? && p.after == SecondLook) || p.Withdraw? || p.Held?
  }

  predicate UnderLock(p: Phase) {
    p.Looking? && (p.look.Reread? || p.look.RemoveQuiet? || p.look.Unlock?)
  }

  /** The shared call looked at `quiet` after writing its file and did not see `e` there. */
  predicate Passed(p: Phase, e: Call) {
    || (p.Looking? && p.after == SecondLook && p.look != ReadQuiet && p.look != Judge(e))
    || (p.Held? && p.quiet)
  }

  /** The exclusive call's scan will still come upon `b`'s file, or has just read it. */
  predicate StillToSee(p: Phase, b: Call) {
    match p
    case Scan(left) => NameOf(b) in left
    case ScanJudge(left, name, found) => NameOf(b) in left || (name == NameOf(b) && found == b)
    case ScanRemove(left, _) => NameOf(b) in left
    case Held(quiet, _) => !quiet
    case _ => true
  }

  /** The phases a call of that kind can be in. */
  predicate KindAgrees(c: Call, p: Phase) {
    && ((Owns(p) || p.CreateQuiet?) && c.kind == Shared ==> p.Held?)
    && (c.kind == Exclusive ==> !(p.WriteHold? || p.Withdraw? || p.GiveUp?))
    && (p.Looking? ==> (c.kind == Exclusive <==> p.after == CreateAgain))
  }

  ghost predicate KindsAgree(s: State) { forall c :: c in s.phase ==> KindAgrees(c, s.phase[c]) }

  ghost predicate FilesNamed(s: State) {
    && (forall n :: n in s.shared ==> NameOf(s.shared[n]) == n && s.shared[n].kind == Shared)
    && (forall c :: c in s.phase && s.phase[c].ScanJudge? ==> NameOf(s.phase[c].found) == s.phase[c].name)
    && (forall c :: c in s.phase && s.phase[c].ScanRemove? ==> s.phase[c].name.pid in s.dead)
  }

  ghost predicate LockExclusive(s: State) {
    forall c :: c in s.phase && Alive(s, c) && UnderLock(s.phase[c]) ==> s.lock == Some(c)
  }

  ghost predicate TakesOverTheDead(s: State) {
    forall c :: c in s.phase && s.phase[c].Looking? ==>
      match s.phase[c].look
      case TakeLock(seen) => !Alive(s, seen)
      case Reread(seen) => !Alive(s, seen)
      case RemoveQuiet(seen) => !Alive(s, seen) && (Alive(s, c) ==> s.quiet == Some(seen))
      case _ => true
  }

  ghost predicate OwnersOwn(s: State) {
    forall c :: c in s.phase && c.kind == Exclusive && Alive(s, c) && Owns(s.phase[c]) ==> s.quiet == Some(c)
  }

  ghost predicate TwinsCrowded(s: State) {
    forall c, d | c in s.phase && d in s.phase && c != d && c.kind == Shared && d.kind == Shared ::
      NameOf(c) == NameOf(d) && Active(s, c) && Active(s, d) ==> c in s.crowded
  }

  ghost predicate FilesHeld(s: State) {
    forall c :: c in s.phase && c.kind == Shared && Alive(s, c) && c !in s.crowded && HasFile(s.phase[c]) ==>
      NameOf(c) in s.shared && s.shared[NameOf(c)] == c
  }

  /** The Dekker argument: a live owner of `quiet` will see every shared hold that did not see it. */
  ghost predicate OneSeesTheOther(s: State) {
    forall e, b | e in s.phase && b in s.phase && e.kind == Exclusive && b.kind == Shared && Alive(s, e) && Alive(s, b) ::
      Owns(s.phase[e]) && Passed(s.phase[b], e) && b.worktree != e.worktree && b !in s.crowded
      ==> StillToSee(s.phase[e], b)
  }

  ghost predicate Inv(s: State) {
    KindsAgree(s) && FilesNamed(s) && LockExclusive(s) && TakesOverTheDead(s) && OwnersOwn(s) && TwinsCrowded(s)
    && FilesHeld(s) && OneSeesTheOther(s)
  }

  lemma KindStays(s: State, c: Call, timedOut: bool, pick: Name)
    requires KindAgrees(c, At(s, c))
    ensures KindAgrees(c, PhaseAfter(s, c, timedOut, pick))
  {}

  lemma KindsKept(s: State, a: Action)
    requires KindsAgree(s)
    ensures KindsAgree(Next(s, a))
  {
    hide PhaseAfter;
    hide QuietAfter;
    hide SharedAfter;
    hide LockAfter;
    hide CrowdedAfter;
    if a.Act? {
      KindStays(s, a.call, a.timedOut, a.pick);
    }
  }

  lemma FileNamesKept(s: State, a: Action)
    requires FilesNamed(s) && KindsAgree(s)
    ensures FilesNamed(Next(s, a))
  {
    hide CrowdedAfter;
    hide LockAfter;
    hide QuietAfter;
    hide SharedAfter;
    hide PhaseAfter;
    if a.Act? {
      SharedAreNamed(s, a.call);
      ScansAreNamed(s, a.call, a.timedOut, a.pick);
    }
  }

  lemma SharedAreNamed(s: State, c: Call)
    requires FilesNamed(s) && KindsAgree(s)
    ensures forall n :: n in SharedAfter(s, c) ==> NameOf(SharedAfter(s, c)[n]) == n && SharedAfter(s, c)[n].kind == Shared
  {}

  lemma ScansAreNamed(s: State, c: Call, timedOut: bool, pick: Name)
    requires FilesNamed(s)
    ensures var p := PhaseAfter(s, c, timedOut, pick);
            (p.ScanJudge? ==> NameOf(p.found) == p.name) && (p.ScanRemove? ==> p.name.pid in s.dead)
  {}

  lemma LockKept(s: State, a: Action)
    requires LockExclusive(s)
    ensures LockExclusive(Next(s, a))
  {}

  lemma TakeoverKept(s: State, a: Action)
    requires KindsAgree(s) && LockExclusive(s) && TakesOverTheDead(s) && OwnersOwn(s)
    ensures TakesOverTheDead(Next(s, a))
  {
    hide SharedAfter;
    hide CrowdedAfter;
    hide LockAfter;
  }

  lemma OwnersKept(s: State, a: Action)
    requires KindsAgree(s) && TakesOverTheDead(s) && OwnersOwn(s)
    ensures OwnersOwn(Next(s, a))
  {
    hide SharedAfter;
    hide CrowdedAfter;
    hide LockAfter;
  }

  lemma CrowdingKept(s: State, a: Action)
    requires TwinsCrowded(s)
    ensures TwinsCrowded(Next(s, a))
  {
    var s' := Next(s, a);
    forall c, d | c in s'.phase && d in s'.phase && c != d && c.kind == Shared && d.kind == Shared
      && NameOf(c) == NameOf(d) && Active(s', c) && Active(s', d)
      ensures c in s'.crowded
    {
      if a.Act? && Alive(s, a.call) && a.call == c && At(s, c) == Idle {
        assert d in Twins(s, c);
      } else if a.Act? && Alive(s, a.call) && a.call == d && At(s, d) == Idle {
        assert c in Twins(s, d);
      }
    }
  }

  lemma FilesKept(s: State, a: Action)
    requires KindsAgree(s) && FilesNamed(s) && TwinsCrowded(s) && FilesHeld(s)
    ensures FilesHeld(Next(s, a))
  {
    var s' := Next(s, a);
    forall c | c in s'.phase && c.kind == Shared && Alive(s', c) && c !in s'.crowded && HasFile(s'.phase[c])
      ensures NameOf(c) in s'.shared && s'.shared[NameOf(c)] == c
    {
      if a.Act? && Alive(s, a.call) && a.call != c {
        // Only a twin or a takeover of a dead process could touch the file; a twin crowds `c`.
        OthersLeaveTheFile(s, c, a.call);
      }
    }
  }

  lemma OthersLeaveTheFile(s: State, c: Call, d: Call)
    requires KindsAgree(s) && FilesNamed(s) && TwinsCrowded(s)
    requires c != d && c in s.phase && c.kind == Shared && Active(s, c) && Alive(s, c) && c !in CrowdedAfter(s, d)
    requires NameOf(c) in s.shared
    ensures NameOf(c) in SharedAfter(s, d) && SharedAfter(s, d)[NameOf(c)] == s.shared[NameOf(c)]
  {
    assert d.kind == Shared && NameOf(d) == NameOf(c) ==> c in Twins(s, d);
  }

  lemma DekkerKept(s: State, a: Action)
    requires Inv(s)
    ensures OneSeesTheOther(Next(s, a))
  {
    var s' := Next(s, a);
    forall e, b | e in s'.phase && b in s'.phase && e.kind == Exclusive && b.kind == Shared && Alive(s', e)
      && Alive(s', b) && Owns(s'.phase[e]) && Passed(s'.phase[b], e) && b.worktree != e.worktree && b !in s'.crowded
      ensures StillToSee(s'.phase[e], b)
    {
      if a.Act? && Alive(s, a.call) {
        if a.call == e {
          OwnerStepSees(s, e, b, a.timedOut, a.pick);
        } else if a.call == b {
          SharedStepSees(s, e, b, a.timedOut, a.pick);
        }
      }
    }
  }

  /** A step of the exclusive call: its listing holds the file, and each entry it takes off the list it reads. */
  lemma OwnerStepSees(s: State, e: Call, b: Call, timedOut: bool, pick: Name)
    requires KindsAgree(s) && FilesNamed(s) && FilesHeld(s) && OneSeesTheOther(s)
    requires e.kind == Exclusive && b.kind == Shared && Alive(s, e) && Alive(s, b)
    requires b in s.phase && Passed(s.phase[b], e) && b.worktree != e.worktree && b !in s.crowded
    ensures StillToSee(PhaseAfter(s, e, timedOut, pick), b) || !Owns(PhaseAfter(s, e, timedOut, pick))
  {
    assert NameOf(b) in s.shared && s.shared[NameOf(b)] == b;
  }

  /** A step of the shared call: its second look sees a live owner of `quiet`. */
  lemma SharedStepSees(s: State, e: Call, b: Call, timedOut: bool, pick: Name)
    requires KindsAgree(s) && OwnersOwn(s) && OneSeesTheOther(s)
    requires e in s.phase && e.kind == Exclusive && b.kind == Shared && Alive(s, e) && Alive(s, b)
    requires Owns(s.phase[e]) && b.worktree != e.worktree && b !in s.crowded
    requires Passed(PhaseAfter(s, b, timedOut, pick), e)
    ensures StillToSee(s.phase[e], b)
  {
    assert s.quiet == Some(e);
  }

  lemma NextKeepsInv(s: State, a: Action)
    requires Inv(s)
    ensures Inv(Next(s, a))
  {
    KindsKept(s, a);
    FileNamesKept(s, a);
    LockKept(s, a);
    TakeoverKept(s, a);
    OwnersKept(s, a);
    CrowdingKept(s, a);
    FilesKept(s, a);
    DekkerKept(s, a);
  }

  // -------------------------------------------------------------------------------------------------------------
  // Every run
  // -------------------------------------------------------------------------------------------------------------

  lemma {:induction false} ExecKeepsInv(s: State, run: seq<Action>)
    requires Inv(s)
    ensures Inv(Exec(s, run))
    decreases |run|
  {
    if run != [] {
      NextKeepsInv(s, run[0]);
      ExecKeepsInv(Next(s, run[0]), run[1..]);
    }
  }

  /** A live exclusive hold that returned `quiet: true`, and a live shared one of another worktree that did too. */
  predicate BothQuiet(s: State, e: Call, b: Call) {
    && e.kind == Exclusive && At(s, e) == Held(true, true) && Alive(s, e)
    && b.kind == Shared && At(s, b) == Held(true, true) && Alive(s, b)
    && b.worktree != e.worktree
  }

  /**
   * Main result: in every interleaving and with any crashes, a live quiet exclusive hold and a live quiet shared hold
   * of another worktree are never out together, unless the shared call ran at once with another call of its own
   * process under the same label, or with a second release of one that was done (so that the two removed one file).
   */
  lemma QuietExcludesShared(run: seq<Action>, e: Call, b: Call)
    ensures BothQuiet(Exec(INITIAL, run), e, b) ==> b in Exec(INITIAL, run).crowded
  {
    ExecKeepsInv(INITIAL, run);
  }

  /** Two live calls that created `quiet` and have not released it are one call, and the file is theirs. */
  lemma OneOwner(run: seq<Action>, c: Call, d: Call)
    requires var s := Exec(INITIAL, run);
             && c.kind == Exclusive && Alive(s, c) && Owns(At(s, c))
             && d.kind == Exclusive && Alive(s, d) && Owns(At(s, d))
    ensures c == d && Exec(INITIAL, run).quiet == Some(c)
  {
    ExecKeepsInv(INITIAL, run);
  }

  /**
   * The `quiet` file is taken away only by its owner's release, or by a takeover once its owner is dead; a takeover that
   * read a dead owner's file never takes away the fresh one a third call made meanwhile.
   */
  lemma QuietGoesOnlyByReleaseOrDeath(run: seq<Action>, a: Action, q: Call)
    requires Exec(INITIAL, run).quiet == Some(q) && Next(Exec(INITIAL, run), a).quiet != Some(q)
    ensures a.Act? && Next(Exec(INITIAL, run), a).quiet == None
    ensures var s := Exec(INITIAL, run); !Alive(s, q) || (a.call == q && At(s, q) == ReleaseRemove)
  {
    ExecKeepsInv(INITIAL, run);
  }

  /** Two live calls are never inside `.lock` together. */
  lemma LockIsExclusive(run: seq<Action>, c: Call, d: Call)
    requires var s := Exec(INITIAL, run);
             Alive(s, c) && UnderLock(At(s, c)) && Alive(s, d) && UnderLock(At(s, d))
    ensures c == d
  {
    ExecKeepsInv(INITIAL, run);
  }

  // -------------------------------------------------------------------------------------------------------------
  // A dead hold blocks nothing
  // -------------------------------------------------------------------------------------------------------------

  /** Nothing but `c`'s own steps, and the breaking of a dead process's lock. */
  predicate Solo(run: seq<Action>, c: Call) {
    forall i :: 0 <= i < |run| ==> run[i] == BreakStaleLock || (run[i].Act? && run[i].call == c)
  }

  lemma {:induction false} ExecConcat(s: State, xs: seq<Action>, ys: seq<Action>)
    ensures Exec(s, xs + ys) == Exec(Exec(s, xs), ys)
    decreases |xs|
  {
    if xs == [] {
      assert xs + ys == ys;
    } else {
      assert (xs + ys)[0] == xs[0] && (xs + ys)[1..] == xs[1..] + ys;
      ExecConcat(Next(s, xs[0]), xs[1..], ys);
    }
  }

  lemma ExecCons(s: State, a: Action, run: seq<Action>)
    ensures Exec(s, [a] + run) == Exec(Next(s, a), run)
  {
    assert ([a] + run)[0] == a && ([a] + run)[1..] == run;
  }

  /** `.lock` is free, or a dead process's, or the call's own exactly where it needs it. */
  predicate LockIsFreeFor(s: State, c: Call) {
    && (s.lock.Some? && s.lock.value != c ==> !Alive(s, s.lock.value))
    && (s.lock == Some(c) <==> UnderLock(At(s, c)))
  }

  /** Between finding `quiet` taken and creating it, whatever the call has read by then. */
  predicate TakingOver(p: Phase) { p.CreateQuiet? || (p.Looking? && p.after == CreateAgain) }

  /** How far the call is from the end of its look at `quiet`, a look at what is there no more being further. */
  function LookLeft(s: State, look: Look): nat {
    match look
    case ReadQuiet => 6
    case Judge(seen) => if s.quiet == Some(seen) then 5 else if Alive(s, seen) then 9 else 12
    case TakeLock(seen) => if s.quiet == Some(seen) then 4 else 11
    case Reread(seen) => if s.quiet == Some(seen) then 3 else 10
    case RemoveQuiet(_) => 2
    case Unlock => if s.quiet.None? then 1 else 8
  }

  function StepsLeft(s: State, p: Phase): nat {
    match p
    case CreateQuiet => if s.quiet.None? then 0 else 7
    case Looking(_, look) => LookLeft(s, look)
    case _ => 0
  }

  /** A live call that finds no `quiet` or a dead owner's creates its own by itself. */
  lemma {:induction false} DeadQuietIsTakenOver(s: State, c: Call) returns (run: seq<Action>)
    requires c.kind == Exclusive && Alive(s, c) && TakingOver(At(s, c)) && LockIsFreeFor(s, c)
    requires s.quiet.Some? ==> !Alive(s, s.quiet.value)
    ensures Solo(run, c)
    ensures var s' := Exec(s, run); s'.quiet == Some(c) && At(s', c) == Drain && s'.shared == s.shared && s'.dead == s.dead
    decreases StepsLeft(s, At(s, c)), if s.lock.None? then 0 else 1
  {
    var a := Act(c, false, NameOf(c));
    if At(s, c) == CreateQuiet && s.quiet.None? {
      run := [a];
      assert Exec(s, run) == Next(s, a);
    } else if At(s, c).Looking? && At(s, c).look.TakeLock? && s.lock.Some? {
      var rest := DeadQuietIsTakenOver(Next(s, BreakStaleLock), c);
      run := [BreakStaleLock] + rest;
      ExecCons(s, BreakStaleLock, rest);
    } else {
      var rest := DeadQuietIsTakenOver(Next(s, a), c);
      run := [a] + rest;
      ExecCons(s, a, rest);
    }
  }

  /** A shared call that has not its answer yet. */
  predicate Waiting(p: Phase) {
    p.Idle? || p.WriteHold? || p.Withdraw? || (p.Looking? && p.after != CreateAgain)
  }

  /** The `quiet` there is does not keep the worktree out: its owner is dead, or of the worktree itself. */
  predicate KeepsNotOut(s: State, worktree: string) {
    s.quiet.Some? ==> !Alive(s, s.quiet.value) || s.quiet.value.worktree == worktree
  }

  /** In its second look, with the file that is now there never read. */
  predicate ReadBefore(s: State, p: Phase) {
    p.Looking? && p.after == SecondLook && (p.look.Unlock? || (!p.look.ReadQuiet? && s.quiet != Some(p.look.seen)))
  }

  function StepsToHold(s: State, p: Phase): nat {
    match p
    case Idle => 60
    case Looking(FirstLook, look) => 30 + LookLeft(s, look)
    case WriteHold => 29
    case Withdraw => 49
    case Looking(_, look) => if look.Judge? && s.quiet != Some(look.seen) && Alive(s, look.seen) then 50 else LookLeft(s, look)
    case _ => 0
  }

  /** A live shared call that has its answer before it, with no `quiet` that keeps it out. */
  predicate CanPass(s: State, b: Call) {
    && b.kind == Shared && Alive(s, b) && Waiting(At(s, b)) && LockIsFreeFor(s, b) && KeepsNotOut(s, b.worktree)
    && (At(s, b).Looking? && At(s, b).after == SecondLook ==> HasItsFile(s, b))
  }

  predicate HasItsFile(s: State, b: Call) { NameOf(b) in s.shared && s.shared[NameOf(b)] == b }

  /** What the call does next, the lock in its way broken first. */
  function Onward(s: State, b: Call): Action {
    if At(s, b).Looking? && At(s, b).look.TakeLock? && s.lock.Some? then BreakStaleLock else Act(b, false, NameOf(b))
  }

  /** One step nearer to the hold, or there. */
  predicate Nearer(s: State, s1: State, b: Call) {
    && (s1.quiet == s.quiet || (s1.quiet.None? && s.quiet.Some?)) && s1.dead == s.dead
    && (s1.quiet.Some? && !Alive(s, s1.quiet.value) && ReadBefore(s1, At(s1, b)) ==> ReadBefore(s, At(s, b)))
    && if At(s1, b) == Held(true, true) then
         HasItsFile(s1, b) && (s1.quiet.Some? && !Alive(s, s1.quiet.value) ==> ReadBefore(s, At(s, b)))
       else
         && CanPass(s1, b) && StepsToHold(s1, At(s1, b)) <= StepsToHold(s, At(s, b))
         && (StepsToHold(s1, At(s1, b)) == StepsToHold(s, At(s, b)) ==> s.lock.Some? && s1.lock.None?)
  }

  lemma PassesOneStep(s: State, b: Call)
    requires CanPass(s, b)
    ensures Nearer(s, Next(s, Onward(s, b)), b)
  {
    hide Nearer;
    if At(s, b).Looking? && !At(s, b).look.ReadQuiet? && !At(s, b).look.Judge? {
      PassesUnderLock(s, b);
    } else if At(s, b).Looking? {
      PassesALook(s, b);
    } else {
      PassesBetween(s, b);
    }
  }

  lemma PassesALook(s: State, b: Call)
    requires CanPass(s, b) && At(s, b).Looking? && (At(s, b).look.ReadQuiet? || At(s, b).look.Judge?)
    ensures Nearer(s, Next(s, Onward(s, b)), b)
  {
    hide CrowdedAfter;
  }

  lemma PassesUnderLock(s: State, b: Call)
    requires CanPass(s, b) && At(s, b).Looking? && !At(s, b).look.ReadQuiet? && !At(s, b).look.Judge?
    ensures Nearer(s, Next(s, Onward(s, b)), b)
  {
    hide CrowdedAfter;
  }

  lemma PassesBetween(s: State, b: Call)
    requires CanPass(s, b) && !At(s, b).Looking?
    ensures Nearer(s, Next(s, Onward(s, b)), b)
  {
    hide CrowdedAfter;
  }

  /**
   * A live shared call gets its hold by itself once no `quiet` keeps it out, whatever it has read by then: a dead owner's
   * is taken away, and its own worktree's left alone.
   */
  lemma {:induction false} DeadQuietIsPassed(s: State, b: Call) returns (run: seq<Action>)
    requires CanPass(s, b)
    ensures Solo(run, b)
    ensures var s' := Exec(s, run);
            && At(s', b) == Held(true, true) && HasItsFile(s', b)
            && (s'.quiet.Some? ==> s'.quiet == s.quiet && (Alive(s, s.quiet.value) || ReadBefore(s, At(s, b))))
    decreases StepsToHold(s, At(s, b)), if s.lock.None? then 0 else 1
  {
    hide Next;
    hide CanPass;
    hide StepsToHold;
    hide ReadBefore;
    hide HasItsFile;
    var a := Onward(s, b);
    PassesOneStep(s, b);
    var rest := [];
    if At(Next(s, a), b) != Held(true, true) {
      rest := DeadQuietIsPassed(Next(s, a), b);
    }
    run := [a] + rest;
    ExecCons(s, a, rest);
  }

  /** Whether `sharedElsewhere` of `worktree` would pass this file by: its process is dead, or it is the worktree's own. */
  predicate BlocksNot(s: State, n: Name, worktree: string) {
    n in s.shared ==> !Alive(s, s.shared[n]) || s.shared[n].worktree == worktree
  }

  /** The names a scan has still to deal with. */
  function LeftToScan(s: State, p: Phase): set<Name> {
    match p
    case Scan(left) => left
    case ScanJudge(left, name, found) => if Alive(s, found) then left else left + {name}
    case ScanRemove(left, name) => left + {name}
    case _ => {}
  }

  /** The file the scan has judged, or is judging, to be a dead process's. */
  predicate Condemned(s: State, p: Phase, n: Name) {
    (p.ScanJudge? && p.name == n && !Alive(s, p.found)) || (p.ScanRemove? && p.name == n)
  }

  /**
   * A draining call that only dead processes' files and its own worktree's stand before gets the quiet by itself, the dead
   * ones' files removed and no other touched.
   */
  lemma {:induction false} DeadSharedAreSweptAside(s: State, c: Call) returns (run: seq<Action>)
    requires c.kind == Exclusive && Alive(s, c)
    requires match At(s, c)
             case Scan(left) => forall n :: n in left ==> BlocksNot(s, n, c.worktree)
             case ScanJudge(left, _, found) => (!Alive(s, found) || found.worktree == c.worktree)
                                               && forall n :: n in left ==> BlocksNot(s, n, c.worktree)
             case ScanRemove(left, _) => forall n :: n in left ==> BlocksNot(s, n, c.worktree)
             case _ => false
    ensures Solo(run, c)
    ensures var s' := Exec(s, run);
            && At(s', c) == Held(true, true)
            && (forall n :: n in s'.shared ==> n in s.shared && s'.shared[n] == s.shared[n])
            && (forall n :: n in LeftToScan(s, At(s, c)) && n in s'.shared ==> Alive(s, s'.shared[n]))
            && (forall n :: n in s.shared && n !in LeftToScan(s, At(s, c)) ==> n in s'.shared)
            && (forall n :: n in s.shared && Alive(s, s.shared[n]) && !Condemned(s, At(s, c), n) ==> n in s'.shared)
    decreases At(s, c).left, if At(s, c).ScanJudge? then 2 else if At(s, c).ScanRemove? then 1 else 0
  {
    var pick := NameOf(c);
    if At(s, c).Scan? && At(s, c).left != {} {
      pick :| pick in At(s, c).left;
    }
    var a := Act(c, false, pick);
    if At(s, c) == Scan({}) {
      run := [a];
      assert Exec(s, run) == Next(s, a);
    } else {
      var rest := DeadSharedAreSweptAside(Next(s, a), c);
      run := [a] + rest;
      ExecCons(s, a, rest);
    }
  }

  // -------------------------------------------------------------------------------------------------------------
  // Who waits, and for how long
  // -------------------------------------------------------------------------------------------------------------

  /** No wait of the call's has run out. */
  predicate Patient(run: seq<Action>, c: Call) {
    forall i :: 0 <= i < |run| && run[i].Act? && run[i].call == c ==> !run[i].timedOut
  }

  lemma {:induction false} PatientStaysQuiet(s: State, run: seq<Action>, c: Call)
    requires Patient(run, c) && At(s, c) != GiveUp && (At(s, c).Held? ==> At(s, c).quiet)
    ensures var p := At(Exec(s, run), c); p != GiveUp && (p.Held? ==> p.quiet)
    decreases |run|
  {
    if run != [] {
      assert forall i :: 0 <= i < |run[1..]| ==> run[1..][i] == run[i + 1];
      PatientStaysQuiet(Next(s, run[0]), run[1..], c);
    }
  }

  /**
   * Main result: in every run a call none of whose waits has run out never takes a hold that is not quiet; so while
   * something keeps it from the quiet it waits.
   */
  lemma PatientWaits(run: seq<Action>, c: Call)
    requires Patient(run, c)
    ensures var p := At(Exec(INITIAL, run), c); p != GiveUp && (p.Held? ==> p.quiet)
  {
    PatientStaysQuiet(INITIAL, run, c);
  }

  /** A shared call has a file only from writing it to taking it away. */
  ghost predicate FilesAreWritten(s: State) {
    forall n :: n in s.shared ==> HasFile(At(s, s.shared[n]))
  }

  lemma {:induction false} OnlyWrittenFiles(s: State, run: seq<Action>)
    requires KindsAgree(s) && FilesNamed(s) && FilesAreWritten(s)
    ensures FilesAreWritten(Exec(s, run))
    decreases |run|
  {
    if run != [] {
      KindsKept(s, run[0]);
      FileNamesKept(s, run[0]);
      FilesStayWritten(s, run[0]);
      OnlyWrittenFiles(Next(s, run[0]), run[1..]);
    }
  }

  lemma FilesStayWritten(s: State, a: Action)
    requires KindsAgree(s) && FilesNamed(s) && FilesAreWritten(s)
    ensures FilesAreWritten(Next(s, a))
  {
    hide CrowdedAfter;
    hide QuietAfter;
    hide LockAfter;
    var s' := Next(s, a);
    forall n | n in s'.shared
      ensures HasFile(At(s', s'.shared[n]))
    {
      assert n in s.shared ==> HasFile(At(s, s.shared[n])) && NameOf(s.shared[n]) == n;
    }
  }

  /** Main result: in every run a shared call that waits, or is done, has no file that others would wait for. */
  lemma WaitingLeavesNoFile(run: seq<Action>, b: Call)
    requires var p := At(Exec(INITIAL, run), b); (p.Looking? && p.after == FirstLook) || p == WriteHold || p == Done
    ensures forall n :: n in Exec(INITIAL, run).shared ==> Exec(INITIAL, run).shared[n] != b
  {
    OnlyWrittenFiles(INITIAL, run);
  }

  /** A shared call whose second look sees another worktree's live `quiet` makes way by its own steps, and looks again. */
  lemma SharedMakesWay(s: State, b: Call, e: Call) returns (run: seq<Action>)
    requires b.kind == Shared && Alive(s, b) && At(s, b) == Looking(SecondLook, ReadQuiet)
    requires s.quiet == Some(e) && Alive(s, e) && e.worktree != b.worktree
    ensures Solo(run, b) && Patient(run, b)
    ensures var s' := Exec(s, run);
            At(s', b) == Looking(FirstLook, ReadQuiet) && s'.quiet == s.quiet && s'.shared == s.shared - {NameOf(b)}
  {
    hide CrowdedAfter;
    var a := Act(b, false, NameOf(b));
    var s1 := Next(s, a);
    var s2 := Next(s1, a);
    assert At(s1, b) == Looking(SecondLook, Judge(e)) && At(s2, b) == Withdraw;
    run := [a] + ([a] + ([a] + []));
    ExecCons(s, a, [a] + ([a] + []));
    ExecCons(s1, a, [a] + []);
    ExecCons(s2, a, []);
  }

  /** A shared call whose wait for another worktree's live `quiet` runs out goes on without it, its file written. */
  lemma SharedGoesOnWithout(s: State, b: Call, e: Call) returns (run: seq<Action>)
    requires b.kind == Shared && Alive(s, b) && At(s, b) == Looking(FirstLook, ReadQuiet)
    requires s.quiet == Some(e) && Alive(s, e) && e.worktree != b.worktree
    ensures Solo(run, b)
    ensures var s' := Exec(s, run);
            At(s', b) == Held(false, true) && s'.quiet == s.quiet && s'.shared == s.shared[NameOf(b) := b]
  {
    hide CrowdedAfter;
    var a := Act(b, true, NameOf(b));
    var s1 := Next(s, a);
    var s2 := Next(s1, a);
    assert At(s1, b) == Looking(FirstLook, Judge(e)) && At(s2, b) == GiveUp;
    run := [a] + ([a] + ([a] + []));
    ExecCons(s, a, [a] + ([a] + []));
    ExecCons(s1, a, [a] + []);
    ExecCons(s2, a, []);
  }

  /** And one that has just made way, should its wait be over by then, does so too. */
  lemma WithdrawnGoesOnWithout(s: State, b: Call) returns (run: seq<Action>)
    requires b.kind == Shared && Alive(s, b) && At(s, b) == Withdraw
    ensures Solo(run, b)
    ensures var s' := Exec(s, run);
            At(s', b) == Held(false, true) && s'.quiet == s.quiet && s'.shared == s.shared[NameOf(b) := b]
  {
    hide CrowdedAfter;
    var a := Act(b, true, NameOf(b));
    var s1 := Next(s, a);
    assert At(s1, b) == GiveUp;
    assert (s.shared - {NameOf(b)})[NameOf(b) := b] == s.shared[NameOf(b) := b];
    run := [a] + ([a] + []);
    ExecCons(s, a, [a] + []);
    ExecCons(s1, a, []);
  }

  /** An exclusive call whose wait for a live `quiet` runs out goes on without one of its own. */
  lemma ExclusiveGoesOnWithout(s: State, c: Call, e: Call) returns (run: seq<Action>)
    requires c.kind == Exclusive && Alive(s, c) && At(s, c) == CreateQuiet && s.quiet == Some(e) && Alive(s, e)
    ensures Solo(run, c)
    ensures var s' := Exec(s, run); At(s', c) == Held(false, false) && s'.quiet == s.quiet && s'.shared == s.shared
  {
    hide CrowdedAfter;
    var a := Act(c, true, NameOf(c));
    var s1 := Next(s, a);
    var s2 := Next(s1, a);
    assert At(s1, c) == Looking(CreateAgain, ReadQuiet) && At(s2, c) == Looking(CreateAgain, Judge(e));
    run := [a] + ([a] + ([a] + []));
    ExecCons(s, a, [a] + ([a] + []));
    ExecCons(s1, a, [a] + []);
    ExecCons(s2, a, []);
  }

  /** An owner of `quiet` whose wait for another worktree's live shared hold runs out keeps the file, but is not quiet. */
  lemma OwnerGoesOnWithout(s: State, c: Call, b: Call) returns (run: seq<Action>)
    requires c.kind == Exclusive && Alive(s, c) && At(s, c) == Drain && s.quiet == Some(c)
    requires NameOf(b) in s.shared && s.shared[NameOf(b)] == b && Alive(s, b) && b.worktree != c.worktree
    ensures Solo(run, c)
    ensures var s' := Exec(s, run); At(s', c) == Held(false, true) && s'.quiet == Some(c) && s'.shared == s.shared
  {
    hide CrowdedAfter;
    var a := Act(c, true, NameOf(b));
    var s1 := Next(s, a);
    var s2 := Next(s1, a);
    assert At(s1, c) == Scan(s.shared.Keys) && At(s2, c) == ScanJudge(s.shared.Keys - {NameOf(b)}, NameOf(b), b);
    run := [a] + ([a] + ([a] + []));
    ExecCons(s, a, [a] + ([a] + []));
    ExecCons(s1, a, [a] + []);
    ExecCons(s2, a, []);
  }

  /** The owner's release, its own two steps: `quiet` is gone, and nothing else changes. */
  lemma OwnerReleases(s: State, e: Call) returns (run: seq<Action>)
    requires e.kind == Exclusive && Alive(s, e) && At(s, e).Held? && At(s, e).created && s.quiet == Some(e)
    ensures Solo(run, e)
    ensures var s' := Exec(s, run);
            && s'.quiet.None? && s'.shared == s.shared && s'.lock == s.lock && s'.dead == s.dead
            && s'.phase == s.phase[e := Done]
  {
    hide CrowdedAfter;
    var a := Act(e, false, NameOf(e));
    var s1 := Next(s, a);
    assert At(s1, e) == ReleaseRemove && s1.phase == s.phase[e := ReleaseRemove];
    run := [a] + ([a] + []);
    ExecCons(s, a, [a] + []);
    ExecCons(s1, a, []);
  }

  /** A release of what is not the call's own, in any state at all, takes nobody's `quiet`: a step of its own ends it. */
  lemma ReleaseSparesOthers(s: State, e: Call, timedOut: bool, pick: Name)
    requires e.kind == Exclusive && Alive(s, e) && At(s, e).Held? && !(At(s, e).created && s.quiet == Some(e))
    ensures Next(s, Act(e, timedOut, pick)) == s.(phase := s.phase[e := Done])
  {}

  /** No step of a call takes a `.lock` away that another call wrote, in any state at all. */
  lemma OthersLockStays(s: State, c: Call, d: Call, timedOut: bool, pick: Name)
    requires s.lock == Some(d) && d != c
    ensures Next(s, Act(c, timedOut, pick)).lock == Some(d)
  {}

  /** Main result: once the owner has released, a shared call that waited for it gets its hold, quiet, by its own steps. */
  lemma ReleaseLetsSharedIn(s: State, e: Call, b: Call) returns (release: seq<Action>, run: seq<Action>)
    requires e.kind == Exclusive && Alive(s, e) && At(s, e).Held? && At(s, e).created && s.quiet == Some(e)
    requires b.kind == Shared && Alive(s, b) && Waiting(At(s, b)) && LockIsFreeFor(s, b)
    requires At(s, b).Looking? && At(s, b).after == SecondLook ==> HasItsFile(s, b)
    ensures Solo(release, e) && Solo(run, b) && At(Exec(s, release + run), b) == Held(true, true)
  {
    release := OwnerReleases(s, e);
    var s1 := Exec(s, release);
    assert At(s1, b) == At(s, b);
    run := DeadQuietIsPassed(s1, b);
    ExecConcat(s, release, run);
  }

  /** And so does an exclusive one, when no live shared hold of another worktree is out. */
  lemma ReleaseLetsExclusiveIn(s: State, e: Call, c: Call) returns (release: seq<Action>, run: seq<Action>)
    requires e.kind == Exclusive && Alive(s, e) && At(s, e).Held? && At(s, e).created && s.quiet == Some(e)
    requires c.kind == Exclusive && c != e && Alive(s, c) && TakingOver(At(s, c)) && LockIsFreeFor(s, c)
    requires forall n :: n in s.shared ==> BlocksNot(s, n, c.worktree)
    ensures Solo(release, e) && Solo(run, c)
    ensures var s' := Exec(s, release + run); At(s', c) == Held(true, true)
  {
    release := OwnerReleases(s, e);
    var s1 := Exec(s, release);
    assert At(s1, c) == At(s, c);
    var take := DeadQuietIsTakenOver(s1, c);
    var s2 := Exec(s1, take);
    var a := Act(c, false, NameOf(c));
    var s3 := Next(s2, a);
    assert At(s3, c) == Scan(s2.shared.Keys) && s3.shared == s.shared && s3.dead == s.dead;
    var drain := DeadSharedAreSweptAside(s3, c);
    run := take + ([a] + drain);
    ExecCons(s2, a, drain);
    ExecConcat(s1, take, [a] + drain);
    ExecConcat(s, release, run);
  }

  /** Main result: once the owner's process has crashed, an exclusive call of another process takes `quiet` over. */
  lemma CrashLetsExclusiveIn(s: State, e: Call, c: Call) returns (run: seq<Action>)
    requires c.kind == Exclusive && Alive(s, c) && TakingOver(At(s, c)) && LockIsFreeFor(s, c)
    requires s.quiet == Some(e) && e.pid != c.pid
    ensures Solo(run, c)
    ensures var s' := Exec(s, [Crash(e.pid)] + run); s'.quiet == Some(c) && At(s', c) == Drain && s'.shared == s.shared
  {
    run := DeadQuietIsTakenOver(Next(s, Crash(e.pid)), c);
    ExecCons(s, Crash(e.pid), run);
  }

  /** And a shared one of any worktree passes it. */
  lemma CrashLetsSharedIn(s: State, e: Call, b: Call) returns (run: seq<Action>)
    requires b.kind == Shared && Alive(s, b) && Waiting(At(s, b)) && LockIsFreeFor(s, b)
    requires At(s, b).Looking? && At(s, b).after == SecondLook ==> HasItsFile(s, b)
    requires s.quiet == Some(e) && e.pid != b.pid
    ensures Solo(run, b) && At(Exec(s, [Crash(e.pid)] + run), b) == Held(true, true)
  {
    run := DeadQuietIsPassed(Next(s, Crash(e.pid)), b);
    ExecCons(s, Crash(e.pid), run);
  }

  // -------------------------------------------------------------------------------------------------------------
  // Exactly when the lock is quiet
  // -------------------------------------------------------------------------------------------------------------

  /** Two shared calls of one process under one label, and an exclusive call of another worktree. */
  ghost predicate SharesAName(calls: set<Call>) {
    exists a, b, e :: a in calls && b in calls && e in calls && a != b && a.kind == Shared && b.kind == Shared
                      && a.pid == b.pid && a.step == b.step && e.kind == Exclusive && e.worktree != b.worktree
  }

  predicate Among(run: seq<Action>, calls: set<Call>) {
    forall i :: 0 <= i < |run| && run[i].Act? ==> run[i].call in calls
  }

  ghost predicate AlwaysQuiet(calls: set<Call>) {
    forall run, e, b | Among(run, calls) :: !BothQuiet(Exec(INITIAL, run), e, b)
  }

  lemma CrowdedHaveTwins(s: State, a: Action, calls: set<Call>)
    requires s.phase.Keys <= calls && forall b :: b in s.crowded ==> HasTwin(b, calls)
    requires a.Act? ==> a.call in calls
    ensures Next(s, a).phase.Keys <= calls && forall b :: b in Next(s, a).crowded ==> HasTwin(b, calls)
  {
    forall b | b in Next(s, a).crowded
      ensures HasTwin(b, calls)
    {
      if b !in s.crowded {
        var twins := Twins(s, a.call);
        var d :| d in twins;
        assert d in calls && a.call in calls;
      }
    }
  }

  ghost predicate HasTwin(b: Call, calls: set<Call>) {
    b in calls && b.kind == Shared && exists a :: a in calls && a != b && a.kind == Shared && NameOf(a) == NameOf(b)
  }

  lemma {:induction false} ExecCrowdsOnlyTwins(s: State, run: seq<Action>, calls: set<Call>)
    requires Among(run, calls)
    requires s.phase.Keys <= calls && forall b :: b in s.crowded ==> HasTwin(b, calls)
    ensures Exec(s, run).phase.Keys <= calls && forall b :: b in Exec(s, run).crowded ==> HasTwin(b, calls)
    decreases |run|
  {
    if run != [] {
      CrowdedHaveTwins(s, run[0], calls);
      assert forall i :: 0 <= i < |run[1..]| ==> run[1..][i] == run[i + 1];
      ExecCrowdsOnlyTwins(Next(s, run[0]), run[1..], calls);
    }
  }

  /** Five undisturbed steps give a shared call its hold. */
  lemma SharedAlone(s: State, b: Call) returns (run: seq<Action>)
    requires b.kind == Shared && Alive(s, b) && At(s, b) == Idle && s.quiet.None?
    ensures Solo(run, b)
    ensures var s' := Exec(s, run);
            && s'.dead == s.dead && s'.quiet.None? && s'.shared == s.shared[NameOf(b) := b]
            && s'.phase == s.phase[b := Held(true, true)]
  {
    hide CrowdedAfter;
    hide LockAfter;
    var a := Act(b, false, NameOf(b));
    var s1 := Next(s, a);
    var s2 := Next(s1, a);
    var s3 := Next(s2, a);
    var s4 := Next(s3, a);
    assert s2.phase == s.phase[b := WriteHold];
    assert s3.phase == s.phase[b := Looking(SecondLook, ReadQuiet)];
    assert s4.phase == s.phase[b := Held(true, true)];
    run := [a] + ([a] + ([a] + ([a] + [])));
    ExecCons(s, a, [a] + ([a] + ([a] + [])));
    ExecCons(s1, a, [a] + ([a] + []));
    ExecCons(s2, a, [a] + []);
    ExecCons(s3, a, []);
  }

  /** Four undisturbed steps give an exclusive call its hold when no hold file is there. */
  lemma ExclusiveAlone(s: State, e: Call) returns (run: seq<Action>)
    requires e.kind == Exclusive && Alive(s, e) && At(s, e) == Idle && s.quiet.None? && s.shared == map[]
    ensures Solo(run, e)
    ensures Exec(s, run).dead == s.dead && Exec(s, run).phase == s.phase[e := Held(true, true)]
  {
    hide CrowdedAfter;
    hide LockAfter;
    var a := Act(e, false, NameOf(e));
    var s1 := Next(s, a);
    var s2 := Next(s1, a);
    var s3 := Next(s2, a);
    var s4 := Next(s3, a);
    assert s2.phase == s.phase[e := Drain];
    assert s3.phase == s.phase[e := Scan({})];
    assert s4.phase == s.phase[e := Held(true, true)];
    run := [a] + ([a] + ([a] + ([a] + [])));
    ExecCons(s, a, [a] + ([a] + ([a] + [])));
    ExecCons(s1, a, [a] + ([a] + []));
    ExecCons(s2, a, [a] + []);
    ExecCons(s3, a, []);
  }

  /** One process takes a hold twice under one label and releases one: the other's file is gone, and nobody sees it. */
  lemma ReleasedTwinUncovers(a: Call, b: Call, e: Call) returns (run: seq<Action>)
    requires a != b && a.kind == Shared && b.kind == Shared && NameOf(a) == NameOf(b)
    requires e.kind == Exclusive && e.worktree != b.worktree
    ensures Among(run, {a, b, e}) && BothQuiet(Exec(INITIAL, run), e, b)
  {
    hide CrowdedAfter;
    hide LockAfter;
    hide Exec;
    var runA := SharedAlone(INITIAL, a);
    var s1 := Exec(INITIAL, runA);
    var runB := SharedAlone(s1, b);
    var s2 := Exec(s1, runB);
    var release := Act(a, false, NameOf(a));
    var s3 := Next(s2, release);
    assert s3.shared == map[] && s3.quiet.None? && At(s3, b) == Held(true, true) && At(s3, e) == Idle;
    var runE := ExclusiveAlone(s3, e);
    run := runA + (runB + ([release] + runE));
    ExecConcat(INITIAL, runA, runB + ([release] + runE));
    ExecConcat(s1, runB, [release] + runE);
    ExecCons(s2, release, runE);
  }

  /** The same by a second release: the first hold is over before the other begins, and is released again while it lasts. */
  lemma SecondReleaseUncovers(a: Call, b: Call, e: Call) returns (run: seq<Action>)
    requires a != b && a.kind == Shared && b.kind == Shared && NameOf(a) == NameOf(b)
    requires e.kind == Exclusive && e.worktree != b.worktree
    ensures Among(run, {a, b, e}) && BothQuiet(Exec(INITIAL, run), e, b)
    ensures exists n :: 0 <= n <= |run| && At(Exec(INITIAL, run[..n]), a) == Done && At(Exec(INITIAL, run[..n]), b) == Idle
  {
    hide CrowdedAfter;
    hide LockAfter;
    hide Exec;
    var runA := SharedAlone(INITIAL, a);
    var s1 := Exec(INITIAL, runA);
    var release := Act(a, false, NameOf(a));
    var s2 := Next(s1, release);
    assert s2.shared == map[] && s2.quiet.None? && At(s2, a) == Done && At(s2, b) == Idle;
    var runB := SharedAlone(s2, b);
    var s3 := Exec(s2, runB);
    var s4 := Next(s3, release);
    assert s4.shared == map[] && s4.quiet.None? && At(s4, b) == Held(true, true) && At(s4, e) == Idle;
    var runE := ExclusiveAlone(s4, e);
    var rest := runB + ([release] + runE);
    run := runA + ([release] + rest);
    ExecConcat(INITIAL, runA, [release] + rest);
    ExecCons(s1, release, rest);
    ExecConcat(s2, runB, [release] + runE);
    ExecCons(s3, release, runE);
    EndedThen(runA, release, rest);
  }

  lemma EndedThen(xs: seq<Action>, a: Action, rest: seq<Action>)
    ensures var run := xs + ([a] + rest);
            |xs| + 1 <= |run| && Exec(INITIAL, run[..|xs| + 1]) == Next(Exec(INITIAL, xs), a)
  {
    assert (xs + ([a] + rest))[..|xs| + 1] == xs + [a];
    ExecConcat(INITIAL, xs, [a]);
    assert Exec(Exec(INITIAL, xs), [a]) == Next(Exec(INITIAL, xs), a);
  }

  /**
   * Exactly: a set of calls can never break the quiet, in any interleaving, if and only if no two of its shared calls
   * share a process and a label while an exclusive call of another worktree is among them.
   */
  lemma QuietExactly(calls: set<Call>)
    ensures AlwaysQuiet(calls) <==> !SharesAName(calls)
  {
    if SharesAName(calls) {
      var a, b, e :| a in calls && b in calls && e in calls && a != b && a.kind == Shared && b.kind == Shared
                     && a.pid == b.pid && a.step == b.step && e.kind == Exclusive && e.worktree != b.worktree;
      var run := ReleasedTwinUncovers(a, b, e);
      assert Among(run, calls);
      assert BothQuiet(Exec(INITIAL, run), e, b);
    } else {
      forall run, e, b | Among(run, calls)
        ensures !BothQuiet(Exec(INITIAL, run), e, b)
      {
        QuietExcludesShared(run, e, b);
        ExecCrowdsOnlyTwins(INITIAL, run, calls);
      }
    }
  }
}
