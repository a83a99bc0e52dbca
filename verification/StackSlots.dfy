/**
 * The stack slots of scripts/stack.ts: processes of linked worktrees call `resolveSlot`, while worktrees come and go and
 * processes crash, in any interleaving. A claim is a file `1`..`9` naming the worktree that holds the slot.
 *
 * One action is one file-system call, one `git worktree list`, or one change of the worktrees from outside. `wx` create
 * and `unlink` are atomic, a pid is never reused, and a `.lock` is broken as stale only once its holder is dead.
 */
module StackSlots {
  import opened Wrappers

  const MAX_SLOT: nat := 9

  /** One call of `resolveSlot` from a linked worktree, with no slot forced by the environment. */
  datatype Call = Call(pid: nat, worktree: string, uuid: nat)

  datatype Phase =
    | Idle
      // `own()`, outside the lock and then inside it
    | ListOwn(inside: bool)
    | ReadOwn(inside: bool, left: set<nat>, best: Option<nat>)
    | WantLock
      // under the lock; `live` is what `git worktree list` answered
    | ListTrees
    | ListClaims(live: set<string>)
    | ReadClaims(live: set<string>, left: set<nat>, claims: map<nat, string>)
    | Sweep(live: set<string>, claims: map<nat, string>)
    | SweepRemove(live: set<string>, claims: map<nat, string>, slot: nat)
    | TryClaim(live: set<string>, slot: nat)
    | WriteClaim(slot: nat)
    | Unlock(result: Option<nat>)
      // the answer; `Failed` is the throw when every slot is held
    | Returned(slot: nat)
    | Failed

  /**
   * `listed` is what git knows as worktrees and `present` the directories on disk. `known` and `sighted` are history:
   * every worktree path there has been, and the holders each call's sweep came upon while their directory was there.
   */
  datatype State = State(
    dead: set<nat>,
    listed: set<string>,
    present: set<string>,
    known: set<string>,
    claims: map<nat, string>,
    lock: Option<Call>,
    phase: map<Call, Phase>,
    sighted: map<Call, set<string>>)

  const INITIAL := State({}, {}, {}, {}, map[], None, map[], map[])

  datatype Action =
    | Act(call: Call, pick: nat, gitFails: bool)
    | Crash(pid: nat)
    | BreakStaleLock
    | AddTree(worktree: string)
    | RemoveTree(worktree: string)
    | DeleteDirectory(worktree: string)

  function At(s: State, c: Call): Phase { if c in s.phase then s.phase[c] else Idle }

  predicate Alive(s: State, c: Call) { c.pid !in s.dead }

  predicate LiveTree(s: State, w: string) { w in s.listed && w in s.present }

  /** Whether the sweep takes a claim for stale. */
  predicate Stale(s: State, holder: string, live: set<string>) {
    holder == "" || holder !in live || holder !in s.present
  }

  function Lower(best: Option<nat>, slot: nat): Option<nat> {
    if best.Some? && best.value <= slot then best else Some(slot)
  }

  function PhaseAfter(s: State, c: Call, pick: nat, gitFails: bool): Phase {
    match At(s, c)
    case Idle => if LiveTree(s, c.worktree) && c.worktree != "" then ListOwn(false) else Idle
    case ListOwn(inside) => ReadOwn(inside, s.claims.Keys, None)
    case ReadOwn(inside, left, best) =>
      if left == {} then
        if best.Some? then if inside then Unlock(best) else Returned(best.value)
        else if inside then ListTrees
        else WantLock
      else if pick !in left then At(s, c)
      else if pick in s.claims && s.claims[pick] == c.worktree then ReadOwn(inside, left - {pick}, Lower(best, pick))
      else ReadOwn(inside, left - {pick}, best)
    case WantLock => if s.lock.None? then ListOwn(true) else WantLock
    case ListTrees => ListClaims(if gitFails then {} else s.listed)
    case ListClaims(live) => ReadClaims(live, s.claims.Keys, map[])
    case ReadClaims(live, left, claims) =>
      if left == {} then Sweep(live, claims)
      else if pick !in left then At(s, c)
      else ReadClaims(live, left - {pick}, if pick in s.claims then claims[pick := s.claims[pick]] else claims)
    case Sweep(live, claims) =>
      if claims == map[] then TryClaim(live, 1)
      else if pick !in claims then At(s, c)
      else if Stale(s, claims[pick], live) then SweepRemove(live, claims - {pick}, pick)
      else Sweep(live, claims - {pick})
    case SweepRemove(live, claims, _) => Sweep(live, claims)
    case TryClaim(live, slot) =>
      if slot > MAX_SLOT then Unlock(None)
      else if slot in s.claims then TryClaim(live, slot + 1)
      else WriteClaim(slot)
    case WriteClaim(slot) => Unlock(Some(slot))
    case Unlock(result) => if result.Some? then Returned(result.value) else Failed
    case Returned(_) => At(s, c)
    case Failed => Failed
  }

  /** The claim files after a call's step; a claim is created empty and then written. */
  function ClaimsAfter(s: State, c: Call): map<nat, string> {
    match At(s, c)
    case SweepRemove(_, _, slot) => s.claims - {slot}
    case TryClaim(_, slot) => if slot <= MAX_SLOT && slot !in s.claims then s.claims[slot := ""] else s.claims
    case WriteClaim(slot) => s.claims[slot := c.worktree]
    case _ => s.claims
  }

  function LockAfter(s: State, c: Call): Option<Call> {
    match At(s, c)
    case WantLock => if s.lock.None? then Some(c) else s.lock
    case Unlock(_) => if s.lock == Some(c) then None else s.lock
    case _ => s.lock
  }

  function Sighted(s: State, c: Call): set<string> { if c in s.sighted then s.sighted[c] else {} }

  function SightedAfter(s: State, c: Call, pick: nat): map<Call, set<string>> {
    match At(s, c)
    case Sweep(_, claims) =>
      if pick in claims && claims[pick] in s.present then s.sighted[c := Sighted(s, c) + {claims[pick]}] else s.sighted
    case _ => s.sighted
  }

  /** One action; an action of a dead process, or one that must wait, changes nothing. */
  function Next(s: State, a: Action): State {
    match a
    case Crash(pid) => s.(dead := s.dead + {pid})
    case BreakStaleLock => if s.lock.Some? && !Alive(s, s.lock.value) then s.(lock := None) else s
    case AddTree(w) => s.(listed := s.listed + {w}, present := s.present + {w}, known := s.known + {w})
    case RemoveTree(w) => s.(listed := s.listed - {w}, present := s.present - {w})
    case DeleteDirectory(w) => s.(present := s.present - {w})
    case Act(c, pick, gitFails) =>
      if Alive(s, c) then
        s.(claims := ClaimsAfter(s, c), lock := LockAfter(s, c), phase := s.phase[c := PhaseAfter(s, c, pick, gitFails)],
        sighted := SightedAfter(s, c, pick))
      else s
  }

  function Exec(s: State, run: seq<Action>): State
    decreases |run|
  {
    if run == [] then s else Exec(Next(s, run[0]), run[1..])
  }

  /** What the surroundings may do: let `git worktree list` fail, and put a worktree back at a path that had one. */
  predicate Permitted(s: State, a: Action, gitMayFail: bool, treesMayReturn: bool) {
    match a
    case Act(_, _, gitFails) => gitFails ==> gitMayFail
    case AddTree(w) => w in s.known && !LiveTree(s, w) ==> treesMayReturn
    case _ => true
  }

  predicate RunPermitted(s: State, run: seq<Action>, gitMayFail: bool, treesMayReturn: bool)
    decreases |run|
  {
    run == [] || (Permitted(s, run[0], gitMayFail, treesMayReturn)
                  && RunPermitted(Next(s, run[0]), run[1..], gitMayFail, treesMayReturn))
  }

  // -------------------------------------------------------------------------------------------------------------
  // The invariant
  // -------------------------------------------------------------------------------------------------------------

  predicate UnderLock(p: Phase) {
    (p.ListOwn? && p.inside) || (p.ReadOwn? && p.inside) || p.ListTrees? || p.ListClaims? || p.ReadClaims? || p.Sweep?
    || p.SweepRemove? || p.TryClaim? || p.WriteClaim? || p.Unlock?
  }

  /** Past the look for a claim of its own under the lock, and none written yet. */
  predicate Claimless(p: Phase) {
    p.ListTrees? || p.ListClaims? || p.ReadClaims? || p.Sweep? || p.SweepRemove? || p.TryClaim? || p.WriteClaim?
  }

  /** The phases that carry git's answer about a sweep not yet over. */
  predicate Sweeping(p: Phase) { p.ListClaims? || p.ReadClaims? || p.Sweep? || p.SweepRemove? }

  ghost predicate AllKnown(s: State) {
    && s.listed <= s.known && s.present <= s.known
    && (forall k :: k in s.claims ==> s.claims[k] == "" || s.claims[k] in s.known)
    && (forall c :: c in s.phase && s.phase[c] != Idle ==> c.worktree in s.known && c.worktree != "")
  }

  ghost predicate LockExclusive(s: State) {
    forall c :: c in s.phase && Alive(s, c) && UnderLock(s.phase[c]) ==> s.lock == Some(c)
  }

  /** What a call under the lock has read about its own worktree is so. */
  ghost predicate OwnReads(s: State, c: Call, p: Phase) {
    && (p.ReadOwn? && p.inside ==>
          && (p.best.Some? ==> p.best.value in s.claims && s.claims[p.best.value] == c.worktree)
          && (p.best.None? ==> forall k :: k in s.claims && s.claims[k] == c.worktree ==> k in p.left))
    && (Claimless(p) ==> forall k :: k in s.claims ==> s.claims[k] != c.worktree)
    && (p.WriteClaim? ==> p.slot in s.claims && s.claims[p.slot] == "")
  }

  ghost predicate OwnReadIsTrue(s: State) {
    forall c :: c in s.phase && Alive(s, c) ==> OwnReads(s, c, s.phase[c])
  }

  /** What a sweep has read of the claims is so, and what it has not read yet is still to come. */
  ghost predicate SweepReads(held: map<nat, string>, p: Phase) {
    match p
    case ReadClaims(_, left, claims) =>
      && (forall k :: k in claims ==> k in held && held[k] == claims[k])
      && (forall k :: k in held ==> k in left || k in claims)
    case Sweep(live, claims) =>
      && (forall k :: k in claims ==> k in held && held[k] == claims[k])
      && (forall k :: k in held && k !in claims ==> held[k] != "" && held[k] in live)
    case SweepRemove(live, claims, slot) =>
      && slot !in claims
      && (forall k :: k in claims ==> k in held && held[k] == claims[k])
      && (forall k :: k in held && k !in claims && k != slot ==> held[k] != "" && held[k] in live)
    case TryClaim(live, slot) =>
      && 1 <= slot <= MAX_SLOT + 1
      && (forall k :: 1 <= k < slot ==> k in held)
      && (forall k :: k in held ==> held[k] != "" && held[k] in live)
    case _ => true
  }

  ghost predicate SweepReadIsTrue(s: State) {
    forall c :: c in s.phase && Alive(s, c) ==> SweepReads(s.claims, s.phase[c])
  }

  /** A sweep's git answer has every live worktree that holds a claim, and what it is about to remove is no live one's. */
  ghost predicate Spares(s: State, p: Phase) {
    Sweeping(p) ==>
      && (forall k :: k in s.claims && LiveTree(s, s.claims[k]) && s.claims[k] != "" ==> s.claims[k] in p.live)
      && (p.SweepRemove? && p.slot in s.claims ==> s.claims[p.slot] == "" || !LiveTree(s, s.claims[p.slot]))
  }

  ghost predicate SweepSparesTheLive(s: State) {
    forall c :: c in s.phase && Alive(s, c) ==> Spares(s, s.phase[c])
  }

  ghost predicate OneClaimEach(s: State) {
    forall j, k :: j in s.claims && k in s.claims && s.claims[j] == s.claims[k] && s.claims[j] != "" ==> j == k
  }

  /** The slot a call answers with, or is about to. */
  function Answer(p: Phase): Option<nat> {
    match p
    case ReadOwn(_, _, best) => best
    case Unlock(result) => result
    case Returned(slot) => Some(slot)
    case _ => None
  }

  ghost predicate Stands(s: State, c: Call, p: Phase) {
    Answer(p).Some? && LiveTree(s, c.worktree) ==>
      Answer(p).value in s.claims && s.claims[Answer(p).value] == c.worktree
  }

  ghost predicate AnswersStand(s: State) {
    forall c :: c in s.phase ==> Stands(s, c, s.phase[c])
  }

  ghost predicate Inv(s: State) {
    AllKnown(s) && LockExclusive(s) && OwnReadIsTrue(s) && SweepReadIsTrue(s) && SweepSparesTheLive(s) && OneClaimEach(s)
    && AnswersStand(s)
  }

  lemma KnownKept(s: State, a: Action)
    requires AllKnown(s)
    ensures AllKnown(Next(s, a))
  {}

  lemma LockKept(s: State, a: Action)
    requires LockExclusive(s)
    ensures LockExclusive(Next(s, a))
  {}

  /** Only the lock's live holder changes the claims. */
  lemma OthersLeaveTheClaims(s: State, c: Call, d: Call)
    requires LockExclusive(s) && c in s.phase && Alive(s, c) && UnderLock(s.phase[c]) && d != c && Alive(s, d)
    ensures ClaimsAfter(s, d) == s.claims
  {}

  lemma OwnReadKept(s: State, a: Action)
    requires AllKnown(s) && LockExclusive(s) && OwnReadIsTrue(s)
    ensures OwnReadIsTrue(Next(s, a))
  {
    hide SightedAfter;
    var s' := Next(s, a);
    forall c | c in s'.phase && Alive(s', c)
      ensures OwnReads(s', c, s'.phase[c])
    {
      if a.Act? && Alive(s, a.call) {
        if a.call == c {
          OwnStepReadsOwn(s, c, a.pick, a.gitFails);
        } else if UnderLock(s.phase[c]) {
          OthersLeaveTheClaims(s, c, a.call);
        }
      }
    }
  }

  lemma OwnStepReadsOwn(s: State, c: Call, pick: nat, gitFails: bool)
    requires AllKnown(s) && OwnReads(s, c, At(s, c))
    ensures OwnReads(s.(claims := ClaimsAfter(s, c)), c, PhaseAfter(s, c, pick, gitFails))
  {}

  lemma SweepReadKept(s: State, a: Action)
    requires LockExclusive(s) && SweepReadIsTrue(s)
    ensures SweepReadIsTrue(Next(s, a))
  {
    hide SweepReads;
    hide PhaseAfter;
    hide ClaimsAfter;
    hide SightedAfter;
    hide LockAfter;
    var s' := Next(s, a);
    forall c | c in s'.phase && Alive(s', c)
      ensures SweepReads(s'.claims, s'.phase[c])
    {
      if a.Act? && Alive(s, a.call) {
        if a.call == c {
          IdleReadsNothing(s, c);
          OwnStepReads(s, c, a.pick, a.gitFails);
        } else if UnderLock(s.phase[c]) {
          OthersLeaveTheClaims(s, c, a.call);
        } else {
          OutsideReadsNothing(s'.claims, s.phase[c]);
        }
      }
    }
  }

  lemma IdleReadsNothing(s: State, c: Call)
    ensures c !in s.phase ==> SweepReads(s.claims, At(s, c))
  {}

  lemma OutsideReadsNothing(held: map<nat, string>, p: Phase)
    requires !UnderLock(p)
    ensures SweepReads(held, p)
  {}

  lemma OwnStepReads(s: State, c: Call, pick: nat, gitFails: bool)
    requires SweepReads(s.claims, At(s, c))
    ensures SweepReads(ClaimsAfter(s, c), PhaseAfter(s, c, pick, gitFails))
  {}

  lemma SparingKept(s: State, a: Action)
    requires Permitted(s, a, false, false) && Inv(s)
    ensures SweepSparesTheLive(Next(s, a))
  {
    hide SightedAfter;
    hide PhaseAfter;
    hide ClaimsAfter;
    hide LockAfter;
    hide SweepReads;
    hide OwnReads;
    hide Stands;
    hide OneClaimEach;
    var s' := Next(s, a);
    forall c | c in s'.phase && Alive(s', c)
      ensures Spares(s', s'.phase[c])
    {
      if a.Act? && Alive(s, a.call) {
        if a.call == c {
          OwnStepSpares(s, c, a.pick);
        } else if UnderLock(s.phase[c]) {
          OthersLeaveTheClaims(s, c, a.call);
        }
      }
    }
  }

  lemma OwnStepSpares(s: State, c: Call, pick: nat)
    requires AllKnown(s) && SweepReads(s.claims, At(s, c)) && Spares(s, At(s, c))
    ensures Spares(s.(claims := ClaimsAfter(s, c)), PhaseAfter(s, c, pick, false))
  {}

  lemma OneEachKept(s: State, a: Action)
    requires Inv(s)
    ensures OneClaimEach(Next(s, a))
  {}

  lemma AnswersKept(s: State, a: Action)
    requires Permitted(s, a, false, false) && Inv(s)
    ensures AnswersStand(Next(s, a))
  {
    hide SightedAfter;
    var s' := Next(s, a);
    forall c | c in s'.phase
      ensures Stands(s', c, s'.phase[c])
    {
      if a.Act? && Alive(s, a.call) {
        if a.call == c {
          OwnStepStands(s, c, a.pick, a.gitFails);
        } else if Answer(s.phase[c]).Some? && LiveTree(s, c.worktree) {
          LiveClaimStays(s, a.call, Answer(s.phase[c]).value);
        }
      }
    }
  }

  /** No call's step takes away or overwrites the claim of a live worktree. */
  lemma LiveClaimStays(s: State, d: Call, slot: nat)
    requires OwnReadIsTrue(s) && SweepSparesTheLive(s) && Alive(s, d)
    requires slot in s.claims && s.claims[slot] != "" && LiveTree(s, s.claims[slot])
    ensures slot in ClaimsAfter(s, d) && ClaimsAfter(s, d)[slot] == s.claims[slot]
  {}

  lemma OwnStepStands(s: State, c: Call, pick: nat, gitFails: bool)
    requires AllKnown(s) && OwnReadIsTrue(s) && SweepSparesTheLive(s) && Stands(s, c, At(s, c)) && Alive(s, c)
    ensures Stands(s.(claims := ClaimsAfter(s, c)), c, PhaseAfter(s, c, pick, gitFails))
  {}

  lemma NextKeepsInv(s: State, a: Action)
    requires Permitted(s, a, false, false) && Inv(s)
    ensures Inv(Next(s, a))
  {
    KnownKept(s, a);
    LockKept(s, a);
    OwnReadKept(s, a);
    SweepReadKept(s, a);
    SparingKept(s, a);
    OneEachKept(s, a);
    AnswersKept(s, a);
  }

  // -------------------------------------------------------------------------------------------------------------
  // Every run
  // -------------------------------------------------------------------------------------------------------------

  lemma {:induction false} ExecKeepsInv(s: State, run: seq<Action>)
    requires Inv(s) && RunPermitted(s, run, false, false)
    ensures Inv(Exec(s, run))
    decreases |run|
  {
    if run != [] {
      NextKeepsInv(s, run[0]);
      ExecKeepsInv(Next(s, run[0]), run[1..]);
    }
  }

  /**
   * Main result: in every run in which git always answers and no worktree comes back at a path that had one, two answers
   * given in worktrees that are both live are the same slot exactly when they are the same worktree.
   */
  lemma SlotsAreExclusive(run: seq<Action>, c: Call, d: Call)
    requires RunPermitted(INITIAL, run, false, false)
    requires var s := Exec(INITIAL, run);
             At(s, c).Returned? && At(s, d).Returned? && LiveTree(s, c.worktree) && LiveTree(s, d.worktree)
    ensures var s := Exec(INITIAL, run); At(s, c).slot == At(s, d).slot <==> c.worktree == d.worktree
  {
    hide LockExclusive, OwnReadIsTrue, SweepReadIsTrue, SweepSparesTheLive, PhaseAfter, ClaimsAfter;
    ExecKeepsInv(INITIAL, run);
  }

  /** In the same runs, no action takes away the claim of a worktree that is live. */
  lemma LiveClaimIsNeverSwept(run: seq<Action>, a: Action, slot: nat)
    requires RunPermitted(INITIAL, run, false, false)
    requires var s := Exec(INITIAL, run); slot in s.claims && s.claims[slot] != "" && LiveTree(s, s.claims[slot])
    ensures var s := Exec(INITIAL, run); slot in Next(s, a).claims && Next(s, a).claims[slot] == s.claims[slot]
  {
    hide LockExclusive, SweepReadIsTrue, PhaseAfter, ClaimsAfter;
    ExecKeepsInv(INITIAL, run);
    var s := Exec(INITIAL, run);
    if a.Act? && Alive(s, a.call) {
      LiveClaimStays(s, a.call, slot);
    }
  }

  /** What a sweep has passed over it came upon with its directory there. */
  ghost predicate PassesSighted(s: State, c: Call, p: Phase) {
    match p
    case Sweep(_, claims) => forall k :: k in s.claims && k !in claims ==> s.claims[k] in Sighted(s, c)
    case SweepRemove(_, claims, slot) => forall k :: k in s.claims && k !in claims && k != slot ==> s.claims[k] in Sighted(s, c)
    case TryClaim(_, _) => forall k :: k in s.claims ==> s.claims[k] in Sighted(s, c)
    case _ => true
  }

  ghost predicate KeptWereSighted(s: State) {
    forall c :: c in s.phase && Alive(s, c) ==> PassesSighted(s, c, s.phase[c])
  }

  lemma SightingKept(s: State, a: Action)
    requires LockExclusive(s) && SweepReadIsTrue(s) && KeptWereSighted(s)
    ensures KeptWereSighted(Next(s, a))
  {
    var s' := Next(s, a);
    forall c | c in s'.phase && Alive(s', c)
      ensures PassesSighted(s', c, s'.phase[c])
    {
      if a.Act? && Alive(s, a.call) {
        if a.call == c {
          OwnStepSights(s, c, a.pick, a.gitFails);
        } else if UnderLock(s.phase[c]) {
          OthersLeaveTheClaims(s, c, a.call);
          OthersLeaveTheSightings(s, c, a.call, a.pick);
        }
      }
    }
  }

  lemma OthersLeaveTheSightings(s: State, c: Call, d: Call, pick: nat)
    requires c != d
    ensures Sighted(s.(sighted := SightedAfter(s, d, pick)), c) == Sighted(s, c)
  {}

  lemma OwnStepSights(s: State, c: Call, pick: nat, gitFails: bool)
    requires SweepReads(s.claims, At(s, c)) && PassesSighted(s, c, At(s, c))
    ensures PassesSighted(s.(claims := ClaimsAfter(s, c), sighted := SightedAfter(s, c, pick)), c,
                          PhaseAfter(s, c, pick, gitFails))
  {}

  lemma {:induction false} ExecReadsTruly(s: State, run: seq<Action>)
    requires LockExclusive(s) && SweepReadIsTrue(s) && KeptWereSighted(s)
    ensures LockExclusive(Exec(s, run)) && SweepReadIsTrue(Exec(s, run)) && KeptWereSighted(Exec(s, run))
    decreases |run|
  {
    hide Next;
    hide LockExclusive, SweepReadIsTrue, KeptWereSighted;
    if run != [] {
      LockKept(s, run[0]);
      SweepReadKept(s, run[0]);
      SightingKept(s, run[0]);
      ExecReadsTruly(Next(s, run[0]), run[1..]);
    }
  }

  lemma InitiallyTrue()
    ensures LockExclusive(INITIAL) && SweepReadIsTrue(INITIAL) && KeptWereSighted(INITIAL)
  {}

  /** What a call has sighted was on the disk at some moment of the run. */
  lemma SightedWasThere(run: seq<Action>, c: Call, w: string) returns (n: nat)
    requires w in Sighted(Exec(INITIAL, run), c)
    ensures n <= |run| && w in Exec(INITIAL, run[..n]).present
    decreases |run|
  {
    assert run != [];
    var front, last := run[..|run| - 1], run[|run| - 1];
    assert run == front + [last] && Exec(Next(Exec(INITIAL, front), last), []) == Next(Exec(INITIAL, front), last);
    ExecConcat(INITIAL, front, [last], true, true);
    if w in Sighted(Exec(INITIAL, front), c) {
      n := SightedWasThere(front, c, w);
      assert front[..n] == run[..n];
    } else {
      n := |run| - 1;
    }
  }

  /** The holder was listed by git's answer, and its directory there when the sweep came to its claim. */
  predicate FoundInPlace(s: State, c: Call, holder: string, live: set<string>) { holder in live && holder in Sighted(s, c) }

  /**
   * Main result: in every run whatever, a new claim is the lowest slot free after the sweep: each lower one is held by a
   * worktree git had just listed and the sweep found on the disk; and the call fails only when the nine are all held so.
   */
  lemma ClaimIsLowestFree(run: seq<Action>, a: Action)
    requires a.Act? && Alive(Exec(INITIAL, run), a.call)
    ensures var s := Exec(INITIAL, run); var c := a.call;
            At(s, c).TryClaim? && At(Next(s, a), c).WriteClaim? ==>
              var slot := At(Next(s, a), c).slot;
              && 1 <= slot <= 9 && slot !in s.claims && slot in Next(s, a).claims
              && forall k :: 1 <= k < slot ==> k in s.claims && FoundInPlace(s, c, s.claims[k], At(s, c).live)
    ensures var s := Exec(INITIAL, run); var c := a.call;
            At(s, c).TryClaim? && At(Next(s, a), c) == Unlock(None) ==>
              forall k :: 1 <= k <= 9 ==> k in s.claims && FoundInPlace(s, c, s.claims[k], At(s, c).live)
  {
    InitiallyTrue();
    ExecReadsTruly(INITIAL, run);
  }

  // -------------------------------------------------------------------------------------------------------------
  // Exactly when slots are exclusive
  // -------------------------------------------------------------------------------------------------------------

  lemma {:induction false} ExecConcat(s: State, xs: seq<Action>, ys: seq<Action>, gitMayFail: bool, treesMayReturn: bool)
    ensures Exec(s, xs + ys) == Exec(Exec(s, xs), ys)
    ensures RunPermitted(s, xs, gitMayFail, treesMayReturn)
            && RunPermitted(Exec(s, xs), ys, gitMayFail, treesMayReturn)
            ==> RunPermitted(s, xs + ys, gitMayFail, treesMayReturn)
    decreases |xs|
  {
    if xs == [] {
      assert xs + ys == ys;
    } else {
      assert (xs + ys)[0] == xs[0] && (xs + ys)[1..] == xs[1..] + ys;
      ExecConcat(Next(s, xs[0]), xs[1..], ys, gitMayFail, treesMayReturn);
    }
  }

  lemma ExecOne(s: State, a: Action, run: seq<Action>, gitMayFail: bool, treesMayReturn: bool)
    ensures Exec(s, [a] + run) == Exec(Next(s, a), run)
    ensures Permitted(s, a, gitMayFail, treesMayReturn) && RunPermitted(Next(s, a), run, gitMayFail, treesMayReturn)
            ==> RunPermitted(s, [a] + run, gitMayFail, treesMayReturn)
  {
    assert ([a] + run)[0] == a && ([a] + run)[1..] == run;
  }

  /** What only `c`'s own steps may change. */
  predicate OnlyStepped(s: State, s': State, c: Call) {
    && s'.dead == s.dead && s'.listed == s.listed && s'.present == s.present && s'.known == s.known
    && s'.phase == s.phase[c := At(s', c)]
  }

  /** How many steps an undisturbed call is from its answer, slot 1 being claimed by another worktree or by none. */
  function StepsLeft(p: Phase): nat {
    match p
    case Idle => 30
    case ListOwn(inside) => if inside then 20 else 25
    case ReadOwn(inside, left, _) => (if inside then 16 else 22) + if left == {} then 0 else 1
    case WantLock => 21
    case ListTrees => 15
    case ListClaims(_) => 14
    case ReadClaims(_, left, _) => if left == {} then 12 else 13
    case Sweep(_, claims) => if claims == map[] then 9 else 11
    case SweepRemove(_, _, _) => 10
    case TryClaim(_, _) => 8
    case WriteClaim(_) => 7
    case Unlock(_) => 6
    case _ => 0
  }

  /** Slot 1 alone may be claimed, by another worktree; the lock is free, or the call's own where it needs it. */
  predicate Undisturbed(s: State, c: Call, p: Phase) {
    && Alive(s, c) && LiveTree(s, c.worktree) && c.worktree != ""
    && (forall k :: k in s.claims ==> k == 1 && s.claims[k] != c.worktree)
    && s.lock == (if UnderLock(p) then Some(c) else None)
    && (p.ReadOwn? ==> p.left <= {1} && p.best == None)
  }

  /** A call with no claim of its own walks, undisturbed, to git's answer about the worktrees. */
  lemma {:induction false} WalksToListing(s: State, c: Call, gitFails: bool) returns (run: seq<Action>)
    requires Undisturbed(s, c, At(s, c))
    requires At(s, c).Idle? || At(s, c).ListOwn? || At(s, c).ReadOwn? || At(s, c).WantLock? || At(s, c).ListTrees?
    ensures RunPermitted(s, run, gitFails, false)
    ensures var s' := Exec(s, run);
            && OnlyStepped(s, s', c) && s'.claims == s.claims && s'.lock == Some(c)
            && At(s', c) == ListClaims(if gitFails then {} else s.listed)
    decreases StepsLeft(At(s, c))
  {
    hide SightedAfter;
    var a := Act(c, 1, gitFails && At(s, c).ListTrees?);
    var next := Next(s, a);
    var rest := [];
    if !At(s, c).ListTrees? {
      rest := WalksToListing(next, c, gitFails);
    }
    run := [a] + rest;
    ExecOne(s, a, rest, gitFails, false);
  }

  /** From an answer of git's that leaves out the holder of slot 1, the call takes slot 1 for itself. */
  lemma {:induction false} SweepsAndClaimsOne(s: State, c: Call) returns (run: seq<Action>)
    requires Alive(s, c) && s.lock == Some(c)
    requires match At(s, c)
             case ListClaims(live) => s.claims.Keys <= {1} && (1 in s.claims ==> s.claims[1] !in live)
             case ReadClaims(live, left, claims) =>
               && s.claims.Keys <= {1} && left <= {1} && claims.Keys <= {1} && (1 in s.claims ==> 1 in left || 1 in claims)
               && (1 in s.claims ==> s.claims[1] !in live) && (1 in claims ==> claims[1] !in live)
             case Sweep(live, claims) =>
               && s.claims.Keys <= {1} && claims.Keys <= {1} && (1 in s.claims ==> 1 in claims)
               && (1 in claims ==> claims[1] !in live)
             case SweepRemove(_, claims, slot) => s.claims.Keys <= {1} && slot == 1 && claims == map[]
             case TryClaim(_, slot) => s.claims == map[] && slot == 1
             case WriteClaim(slot) => s.claims.Keys == {1} && slot == 1
             case Unlock(result) => s.claims == map[1 := c.worktree] && result == Some(1)
             case _ => false
    ensures RunPermitted(s, run, false, false)
    ensures var s' := Exec(s, run);
            OnlyStepped(s, s', c) && s'.claims == map[1 := c.worktree] && s'.lock == None && At(s', c) == Returned(1)
    decreases StepsLeft(At(s, c))
  {
    var a := Act(c, 1, false);
    var next := Next(s, a);
    var rest := [];
    if !At(s, c).Unlock? {
      rest := SweepsAndClaimsOne(next, c);
    }
    run := [a] + rest;
    ExecOne(s, a, rest, false, false);
  }

  /** A process of a worktree that has the claim of slot 1 answers 1. */
  lemma {:induction false} AnswersItsClaim(s: State, c: Call) returns (run: seq<Action>)
    requires Alive(s, c) && LiveTree(s, c.worktree) && c.worktree != "" && s.claims == map[1 := c.worktree]
    requires match At(s, c)
             case Idle => true
             case ListOwn(inside) => !inside
             case ReadOwn(inside, left, best) =>
               !inside && ((left == {1} && best == None) || (left == {} && best == Some(1)))
             case _ => false
    ensures RunPermitted(s, run, false, false)
    ensures var s' := Exec(s, run);
            OnlyStepped(s, s', c) && s'.claims == s.claims && s'.lock == s.lock && At(s', c) == Returned(1)
    decreases StepsLeft(At(s, c))
  {
    var a := Act(c, 1, false);
    var next := Next(s, a);
    var rest := [];
    if !(At(s, c).ReadOwn? && At(s, c).left == {}) {
      rest := AnswersItsClaim(next, c);
    }
    run := [a] + rest;
    ExecOne(s, a, rest, false, false);
  }

  // -------------------------------------------------------------------------------------------------------------
  // What a call alone answers
  // -------------------------------------------------------------------------------------------------------------

  /** The call's own steps, git answering each time. */
  predicate OwnSteps(run: seq<Action>, c: Call) {
    forall i :: 0 <= i < |run| ==> run[i].Act? && run[i].call == c && !run[i].gitFails
  }

  /** The worktree's lowest claim among these slots; none when it has none there. */
  predicate IsLowestOwn(s: State, w: string, slots: set<nat>, best: Option<nat>) {
    match best
    case None => forall k :: k in slots && k in s.claims ==> s.claims[k] != w
    case Some(b) => && b in slots && b in s.claims && s.claims[b] == w
                    && forall k :: k in slots && k in s.claims && s.claims[k] == w ==> b <= k
  }

  /** The claims of worktrees that git lists and that are there. */
  function StandingClaims(s: State): map<nat, string> {
    map k | k in s.claims && s.claims[k] != "" && s.claims[k] in s.listed && s.claims[k] in s.present :: s.claims[k]
  }

  /** The phase and nothing else. */
  predicate OnlyMoved(s: State, s': State, c: Call, p: Phase) {
    s' == s.(phase := s.phase[c := p], sighted := s'.sighted)
  }

  lemma OneOwnStep(s: State, a: Action, run: seq<Action>, c: Call)
    requires a.Act? && a.call == c && !a.gitFails && OwnSteps(run, c)
    ensures OwnSteps([a] + run, c) && Exec(s, [a] + run) == Exec(Next(s, a), run)
  {
    ExecOne(s, a, run, false, false);
  }

  lemma ThenSteps(s: State, xs: seq<Action>, ys: seq<Action>, c: Call)
    requires OwnSteps(xs, c) && OwnSteps(ys, c)
    ensures OwnSteps(xs + ys, c) && Exec(s, xs + ys) == Exec(Exec(s, xs), ys)
  {
    ExecConcat(s, xs, ys, false, false);
  }

  lemma {:induction false} ReadsOwnClaims(s: State, c: Call) returns (run: seq<Action>)
    requires Alive(s, c) && At(s, c).ReadOwn? && At(s, c).left <= s.claims.Keys
    requires IsLowestOwn(s, c.worktree, s.claims.Keys - At(s, c).left, At(s, c).best)
    ensures OwnSteps(run, c)
    ensures var p := At(Exec(s, run), c);
            p.ReadOwn? && OnlyMoved(s, Exec(s, run), c, ReadOwn(At(s, c).inside, {}, p.best))
            && IsLowestOwn(s, c.worktree, s.claims.Keys, p.best)
    decreases At(s, c).left
  {
    var p := At(s, c);
    if p.left == {} {
      run := [];
      assert s.claims.Keys - p.left == s.claims.Keys;
      assert s.phase[c := p] == s.phase;
    } else {
      var k :| k in p.left;
      var a := Act(c, k, false);
      assert s.claims.Keys - (p.left - {k}) == (s.claims.Keys - p.left) + {k};
      var rest := ReadsOwnClaims(Next(s, a), c);
      run := [a] + rest;
      OneOwnStep(s, a, rest, c);
      assert s.phase[c := At(Next(s, a), c)][c := At(Exec(s, run), c)] == s.phase[c := At(Exec(s, run), c)];
    }
  }

  lemma {:induction false} ReadsAllClaims(s: State, c: Call) returns (run: seq<Action>)
    requires Alive(s, c) && At(s, c).ReadClaims? && At(s, c).left <= s.claims.Keys
    requires At(s, c).claims == map k | k in s.claims && k !in At(s, c).left :: s.claims[k]
    ensures OwnSteps(run, c) && OnlyMoved(s, Exec(s, run), c, Sweep(At(s, c).live, s.claims))
    decreases At(s, c).left
  {
    var p := At(s, c);
    var k: nat := 0;
    if p.left != {} {
      k :| k in p.left;
    }
    var a := Act(c, k, false);
    var rest := [];
    if p.left != {} {
      rest := ReadsAllClaims(Next(s, a), c);
    } else {
      assert p.claims == s.claims;
    }
    run := [a] + rest;
    OneOwnStep(s, a, rest, c);
    assert s.phase[c := At(Next(s, a), c)][c := Sweep(p.live, s.claims)] == s.phase[c := Sweep(p.live, s.claims)];
  }

  /** The sweep, with git's answer of the moment: the claims that do not stand are gone, and the first slot is next. */
  lemma {:induction false} SweepsAll(s: State, c: Call) returns (run: seq<Action>)
    requires Alive(s, c) && At(s, c).Sweep? && At(s, c).live == s.listed
    requires At(s, c).claims.Keys <= s.claims.Keys && forall k :: k in At(s, c).claims ==> At(s, c).claims[k] == s.claims[k]
    requires forall k :: k in s.claims && k !in At(s, c).claims ==> k in StandingClaims(s)
    ensures OwnSteps(run, c)
    ensures OnlyMoved(s.(claims := StandingClaims(s)), Exec(s, run), c, TryClaim(s.listed, 1))
    decreases At(s, c).claims.Keys
  {
    hide Exec;
    var p := At(s, c);
    if p.claims == map[] {
      var a := Act(c, 0, false);
      run := [a] + [];
      OneOwnStep(s, a, [], c);
      ExecNothing(Next(s, a));
      assert StandingClaims(s) == s.claims;
    } else {
      var k :| k in p.claims;
      var a := Act(c, k, false);
      var s1 := Next(s, a);
      assert (p.claims - {k}).Keys == p.claims.Keys - {k};
      if At(s1, c).Sweep? {
        var rest := SweepsAll(s1, c);
        run := [a] + rest;
        OneOwnStep(s, a, rest, c);
        SameButPhase(s, s1, Exec(s, run), c);
      } else {
        var s2 := Next(s1, a);
        StandingWithout(s, k);
        var rest := SweepsAll(s2, c);
        run := [a] + ([a] + rest);
        OneOwnStep(s1, a, rest, c);
        OneOwnStep(s, a, [a] + rest, c);
        SameButPhase(s.(claims := s.claims - {k}), s2, Exec(s, run), c);
      }
    }
  }

  lemma ExecNothing(s: State)
    ensures Exec(s, []) == s
  {}

  lemma StandingWithout(s: State, k: nat)
    requires k !in StandingClaims(s)
    ensures StandingClaims(s.(claims := s.claims - {k})) == StandingClaims(s)
  {}

  lemma SameButPhase(s: State, s1: State, s': State, c: Call)
    requires s1 == s.(phase := s1.phase, sighted := s1.sighted) && s1.phase == s.phase[c := At(s1, c)]
    requires OnlyMoved(s1.(claims := StandingClaims(s1)), s', c, TryClaim(s.listed, 1))
    ensures OnlyMoved(s.(claims := StandingClaims(s)), s', c, TryClaim(s.listed, 1))
  {
    assert s.phase[c := At(s1, c)][c := At(s', c)] == s.phase[c := At(s', c)];
  }

  /** The lowest slot from `from` on that no claim holds, up to one past the last. */
  function LowestFree(claims: map<nat, string>, from: nat): nat
    decreases MAX_SLOT + 1 - from
  {
    if from > MAX_SLOT || from !in claims then from else LowestFree(claims, from + 1)
  }

  lemma {:induction false} LowestFreeIs(claims: map<nat, string>, from: nat)
    requires from <= MAX_SLOT + 1
    ensures var k := LowestFree(claims, from);
            from <= k <= MAX_SLOT + 1 && (k <= MAX_SLOT ==> k !in claims) && forall j :: from <= j < k ==> j in claims
    decreases MAX_SLOT + 1 - from
  {
    if from <= MAX_SLOT && from in claims {
      LowestFreeIs(claims, from + 1);
    }
  }

  lemma {:induction false} TriesInTurn(s: State, c: Call) returns (run: seq<Action>)
    requires Alive(s, c) && At(s, c).TryClaim? && s.lock == Some(c)
    ensures OwnSteps(run, c)
    ensures var k, s' := LowestFree(s.claims, At(s, c).slot), Exec(s, run);
            s' == if k > MAX_SLOT then s.(phase := s.phase[c := Failed], lock := None)
                  else s.(phase := s.phase[c := Returned(k)], lock := None, claims := s.claims[k := c.worktree])
    decreases if At(s, c).slot > MAX_SLOT then 0 else MAX_SLOT + 1 - At(s, c).slot
  {
    hide Exec;
    var a := Act(c, 0, false);
    var slot, s1 := At(s, c).slot, Next(s, a);
    if slot <= MAX_SLOT && slot in s.claims {
      var rest := TriesInTurn(s1, c);
      run := [a] + rest;
      OneOwnStep(s, a, rest, c);
      var last := At(Exec(s, run), c);
      assert s.phase[c := At(s1, c)][c := last] == s.phase[c := last];
    } else if slot > MAX_SLOT {
      var s2 := Next(s1, a);
      run := [a] + ([a] + []);
      OneOwnStep(s1, a, [], c);
      OneOwnStep(s, a, [a] + [], c);
      ExecNothing(s2);
      assert s2.phase == s.phase[c := Failed];
    } else {
      var s2 := Next(s1, a);
      var s3 := Next(s2, a);
      run := [a] + ([a] + ([a] + []));
      OneOwnStep(s2, a, [], c);
      OneOwnStep(s1, a, [a] + [], c);
      OneOwnStep(s, a, [a] + ([a] + []), c);
      ExecNothing(s3);
      assert s3.phase == s.phase[c := Returned(slot)] && s3.claims == s.claims[slot := c.worktree];
    }
  }

  /** Alone, from finding no claim of its own outside the lock: in, and again none. */
  lemma Enters(s: State, c: Call) returns (run: seq<Action>)
    requires Alive(s, c) && At(s, c) == ReadOwn(false, {}, None) && s.lock == None
    requires forall k :: k in s.claims ==> s.claims[k] != c.worktree
    ensures OwnSteps(run, c) && OnlyMoved(s.(lock := Some(c)), Exec(s, run), c, ReadOwn(true, {}, None))
  {
    hide Exec;
    hide SightedAfter;
    var a := Act(c, 0, false);
    var s1 := Next(s, a);
    var s2 := Next(s1, a);
    var s3 := Next(s2, a);
    assert At(s1, c) == WantLock && At(s2, c) == ListOwn(true) && At(s3, c) == ReadOwn(true, s.claims.Keys, None);
    var read := ReadsOwnClaims(s3, c);
    run := [a] + ([a] + ([a] + read));
    OneOwnStep(s2, a, read, c);
    OneOwnStep(s1, a, [a] + read, c);
    OneOwnStep(s, a, [a] + ([a] + read), c);
    assert Exec(s, run).phase == s.phase[c := ReadOwn(true, {}, None)];
  }

  /** And then git's listing, and all claims read. */
  lemma Lists(s: State, c: Call) returns (run: seq<Action>)
    requires Alive(s, c) && At(s, c) == ReadOwn(true, {}, None) && s.lock == Some(c)
    ensures OwnSteps(run, c) && OnlyMoved(s, Exec(s, run), c, Sweep(s.listed, s.claims))
  {
    hide Exec;
    hide SightedAfter;
    var a := Act(c, 0, false);
    var s1 := Next(s, a);
    var s2 := Next(s1, a);
    var s3 := Next(s2, a);
    assert At(s1, c) == ListTrees && At(s2, c) == ListClaims(s.listed) && At(s3, c) == ReadClaims(s.listed, s.claims.Keys, map[]);
    var all := ReadsAllClaims(s3, c);
    run := [a] + ([a] + ([a] + all));
    OneOwnStep(s2, a, all, c);
    OneOwnStep(s1, a, [a] + all, c);
    OneOwnStep(s, a, [a] + ([a] + all), c);
    assert Exec(s, run).phase == s.phase[c := Sweep(s.listed, s.claims)];
  }

  /**
   * Main result: a call alone answers the lowest claim its worktree has; with none, the lowest slot that no standing claim
   * holds, having removed the claims that do not stand (empty ones, of worktrees git lists no more, or not on the disk)
   * and none besides; and it fails exactly when standing claims hold all nine.
   */
  lemma ResolvesAlone(s: State, c: Call) returns (run: seq<Action>, own: Option<nat>)
    requires Alive(s, c) && LiveTree(s, c.worktree) && c.worktree != "" && At(s, c) == Idle && s.lock == None
    ensures OwnSteps(run, c) && IsLowestOwn(s, c.worktree, s.claims.Keys, own)
    ensures var s', kept := Exec(s, run), StandingClaims(s);
            var k := LowestFree(kept, 1);
            && s'.lock == None
            && (own.Some? ==> At(s', c) == Returned(own.value) && s'.claims == s.claims)
            && (own.None? && k <= MAX_SLOT ==> At(s', c) == Returned(k) && s'.claims == kept[k := c.worktree])
            && (own.None? && k > MAX_SLOT ==> At(s', c) == Failed && s'.claims == kept)
  {
    hide Exec;
    var a := Act(c, 0, false);
    var s1 := Next(s, a);
    var s2 := Next(s1, a);
    assert At(s1, c) == ListOwn(false) && At(s2, c) == ReadOwn(false, s.claims.Keys, None);
    var read := ReadsOwnClaims(s2, c);
    var s3 := Exec(s2, read);
    own := At(s3, c).best;
    var rest;
    if own.Some? {
      rest := [a] + [];
      OneOwnStep(s3, a, [], c);
      ExecNothing(Next(s3, a));
    } else {
      rest := AnswersAlone(s3, c);
    }
    run := [a] + ([a] + (read + rest));
    ThenSteps(s2, read, rest, c);
    OneOwnStep(s1, a, read + rest, c);
    OneOwnStep(s, a, [a] + (read + rest), c);
  }

  lemma AnswersAlone(s: State, c: Call) returns (run: seq<Action>)
    requires Alive(s, c) && At(s, c) == ReadOwn(false, {}, None) && s.lock == None
    requires forall k :: k in s.claims ==> s.claims[k] != c.worktree
    ensures OwnSteps(run, c)
    ensures var s', kept := Exec(s, run), StandingClaims(s);
            var k := LowestFree(kept, 1);
            && s'.lock == None
            && (k <= MAX_SLOT ==> At(s', c) == Returned(k) && s'.claims == kept[k := c.worktree])
            && (k > MAX_SLOT ==> At(s', c) == Failed && s'.claims == kept)
  {
    hide Exec;
    hide Next;
    var enter := Enters(s, c);
    var s0 := Exec(s, enter);
    var list := Lists(s0, c);
    var s1 := Exec(s0, list);
    var sweep := SweepsAll(s1, c);
    var s2 := Exec(s1, sweep);
    var try_ := TriesInTurn(s2, c);
    run := enter + (list + (sweep + try_));
    ThenSteps(s1, sweep, try_, c);
    ThenSteps(s0, list, sweep + try_, c);
    ThenSteps(s, enter, list + (sweep + try_), c);
  }

  /** A claim whose worktree is listed but not on the disk is taken over. */
  lemma MissingDirectoryIsSwept(s: State, c: Call, w: string) returns (run: seq<Action>)
    requires Alive(s, c) && LiveTree(s, c.worktree) && c.worktree != "" && At(s, c) == Idle && s.lock == None
    requires s.claims == map[1 := w] && w != c.worktree && w in s.listed && w !in s.present
    ensures OwnSteps(run, c)
    ensures At(Exec(s, run), c) == Returned(1) && Exec(s, run).claims == map[1 := c.worktree]
  {
    var own;
    run, own := ResolvesAlone(s, c);
    assert StandingClaims(s) == map[];
    assert own.None?;
  }

  /** Main result: a worktree that goes, with or without git being told, leaves its slot 1 to the next call of another. */
  lemma GoneTreeFreesItsSlot(s: State, c: Call, w: string, gone: Action) returns (run: seq<Action>)
    requires Alive(s, c) && LiveTree(s, c.worktree) && c.worktree != "" && At(s, c) == Idle && s.lock == None
    requires 1 in s.claims && s.claims[1] == w && w != c.worktree && forall k :: k in s.claims ==> s.claims[k] != c.worktree
    requires gone == DeleteDirectory(w) || gone == RemoveTree(w)
    ensures OwnSteps(run, c) && At(Exec(s, [gone] + run), c) == Returned(1)
  {
    var s1 := Next(s, gone);
    assert At(s1, c) == Idle && LiveTree(s1, c.worktree);
    var own;
    run, own := ResolvesAlone(s1, c);
    LowestFreeIs(StandingClaims(s1), 1);
    assert LowestFree(StandingClaims(s1), 1) == 1;
    assert own.None?;
    ExecOne(s, gone, run, false, false);
  }

  /**
   * Main result: a process that crashes with the lock keeps nobody out: once the stale lock is broken, a call of another
   * process answers or fails by its own steps.
   */
  lemma CrashKeepsNobodyOut(s: State, c: Call, d: Call) returns (run: seq<Action>)
    requires Alive(s, c) && LiveTree(s, c.worktree) && c.worktree != "" && At(s, c) == Idle
    requires s.lock == Some(d) && d.pid != c.pid
    ensures OwnSteps(run, c)
    ensures var s' := Exec(s, [Crash(d.pid)] + ([BreakStaleLock] + run));
            (At(s', c).Returned? || At(s', c) == Failed) && s'.lock == None
  {
    var s1 := Next(s, Crash(d.pid));
    var s2 := Next(s1, BreakStaleLock);
    assert s2.lock == None && At(s2, c) == Idle;
    var own;
    run, own := ResolvesAlone(s2, c);
    ExecOne(s1, BreakStaleLock, run, false, false);
    ExecOne(s, Crash(d.pid), [BreakStaleLock] + run, false, false);
  }

  // -------------------------------------------------------------------------------------------------------------
  // Two worktrees, one slot
  // -------------------------------------------------------------------------------------------------------------

  /** Two calls of different worktrees, both live, that were given one slot. */
  predicate Clash(s: State, c: Call, d: Call) {
    && At(s, c).Returned? && At(s, d).Returned? && At(s, c).slot == At(s, d).slot
    && c.worktree != d.worktree && LiveTree(s, c.worktree) && LiveTree(s, d.worktree)
  }

  ghost predicate AlwaysExclusive(gitMayFail: bool, treesMayReturn: bool) {
    forall run, c, d | RunPermitted(INITIAL, run, gitMayFail, treesMayReturn) :: !Clash(Exec(INITIAL, run), c, d)
  }

  lemma {:induction false} PermittedMore(s: State, run: seq<Action>, gitMayFail: bool, treesMayReturn: bool)
    requires RunPermitted(s, run, false, false) || RunPermitted(s, run, gitMayFail, false)
    ensures RunPermitted(s, run, gitMayFail, treesMayReturn)
    decreases |run|
  {
    if run != [] {
      PermittedMore(Next(s, run[0]), run[1..], gitMayFail, treesMayReturn);
    }
  }

  /** The first worktree is added, and its first process takes slot 1. */
  lemma FirstClaim(c: Call) returns (run: seq<Action>)
    requires c.worktree != ""
    ensures RunPermitted(INITIAL, run, false, false)
    ensures Exec(INITIAL, run) ==
            State({}, {c.worktree}, {c.worktree}, {c.worktree}, map[1 := c.worktree], None, map[c := Returned(1)],
                  Exec(INITIAL, run).sighted)
  {
    var add := AddTree(c.worktree);
    var s1 := Next(INITIAL, add);
    var walk := WalksToListing(s1, c, false);
    var s2 := Exec(s1, walk);
    var claim := SweepsAndClaimsOne(s2, c);
    ExecConcat(s1, walk, claim, false, false);
    run := [add] + (walk + claim);
    ExecOne(INITIAL, add, walk + claim, false, false);
    assert Exec(INITIAL, run).phase == map[c := Returned(1)];
  }

  /** A second worktree's sweep while `git worktree list` fails takes every worktree for gone. */
  lemma FailedListingClashes(c: Call, d: Call) returns (run: seq<Action>)
    requires c.worktree != "" && d.worktree != "" && c.worktree != d.worktree && c != d
    ensures RunPermitted(INITIAL, run, true, false) && Clash(Exec(INITIAL, run), c, d)
  {
    var first := FirstClaim(c);
    PermittedMore(INITIAL, first, true, false);
    var s1 := Exec(INITIAL, first);
    var add := AddTree(d.worktree);
    var s2 := Next(s1, add);
    var walk := WalksToListing(s2, d, true);
    var s3 := Exec(s2, walk);
    var claim := SweepsAndClaimsOne(s3, d);
    PermittedMore(s3, claim, true, false);
    ExecConcat(s2, walk, claim, true, false);
    ExecOne(s1, add, walk + claim, true, false);
    ExecConcat(INITIAL, first, [add] + (walk + claim), true, false);
    run := first + ([add] + (walk + claim));
  }

  /** A worktree put back at its old path finds its old claim, which a sweep that listed before it came back then takes. */
  lemma ReturningTreeClashes(c: Call, d: Call, again: Call) returns (run: seq<Action>)
    requires c.worktree != "" && d.worktree != "" && c.worktree != d.worktree
    requires again.worktree == c.worktree && again != c && again != d
    ensures RunPermitted(INITIAL, run, false, true) && Clash(Exec(INITIAL, run), again, d)
  {
    hide Exec;
    hide RunPermitted;
    hide SightedAfter;
    hide PhaseAfter;
    hide ClaimsAfter;
    var first := FirstClaim(c);
    PermittedMore(INITIAL, first, false, true);
    var s1 := Exec(INITIAL, first);
    var remove, add, back := RemoveTree(c.worktree), AddTree(d.worktree), AddTree(c.worktree);
    var s2 := Next(s1, remove);
    var s3 := Next(s2, add);
    var walk := WalksToListing(s3, d, false);
    PermittedMore(s3, walk, false, true);
    var s4 := Exec(s3, walk);
    var s5 := Next(s4, back);
    var answer := AnswersItsClaim(s5, again);
    PermittedMore(s5, answer, false, true);
    var s6 := Exec(s5, answer);
    assert At(s6, d) == ListClaims({d.worktree});
    var claim := SweepsAndClaimsOne(s6, d);
    PermittedMore(s6, claim, false, true);
    ExecConcat(s5, answer, claim, false, true);
    ExecOne(s4, back, answer + claim, false, true);
    ExecConcat(s3, walk, [back] + (answer + claim), false, true);
    ExecOne(s2, add, walk + ([back] + (answer + claim)), false, true);
    ExecOne(s1, remove, [add] + (walk + ([back] + (answer + claim))), false, true);
    run := first + ([remove] + ([add] + (walk + ([back] + (answer + claim)))));
    ExecConcat(INITIAL, first, [remove] + ([add] + (walk + ([back] + (answer + claim)))), false, true);
  }

  lemma {:induction false} ReturnsPermittedMore(s: State, run: seq<Action>, gitMayFail: bool)
    requires RunPermitted(s, run, false, true)
    ensures RunPermitted(s, run, gitMayFail, true)
    decreases |run|
  {
    if run != [] {
      ReturnsPermittedMore(Next(s, run[0]), run[1..], gitMayFail);
    }
  }

  /**
   * Exactly: live worktrees never share a slot, in any interleaving, if and only if `git worktree list` always answers
   * and no worktree comes back at a path that had one.
   */
  lemma ExclusiveExactly(gitMayFail: bool, treesMayReturn: bool)
    ensures AlwaysExclusive(gitMayFail, treesMayReturn) <==> !gitMayFail && !treesMayReturn
  {
    var c, d, again := Call(1, "a", 0), Call(2, "b", 0), Call(3, "a", 0);
    if gitMayFail {
      var run := FailedListingClashes(c, d);
      PermittedMore(INITIAL, run, true, treesMayReturn);
      assert Clash(Exec(INITIAL, run), c, d);
    } else if treesMayReturn {
      var run := ReturningTreeClashes(c, d, again);
      ReturnsPermittedMore(INITIAL, run, gitMayFail);
      assert Clash(Exec(INITIAL, run), again, d);
    } else {
      forall run, x, y | RunPermitted(INITIAL, run, false, false)
        ensures !Clash(Exec(INITIAL, run), x, y)
      {
        if Clash(Exec(INITIAL, run), x, y) {
          SlotsAreExclusive(run, x, y);
        }
      }
    }
  }
}
