/**
 * Draining the storefront forward (packages/http/src/storefront-forward.ts): the counter of forwards in flight, the
 * refusal of new ones and those who wait for the last to end.
 *
 * An action is one turn of the event loop. A forward and a wait each have a name of their own, used once.
 */
module StorefrontForward {
  datatype Action =
    | Arrive(forward: nat)
    | Close(forward: nat)
    | Refuse
    | Drained(waiter: nat)
    | Timeout(waiter: nat)

  /** `open` are the forwards started and not yet closed, `refused` those answered 503; `answers` are what waits got. */
  datatype State = State(inFlight: int, refusing: bool, open: set<nat>, refused: set<nat>, waiters: set<nat>,
                         answers: map<nat, bool>)

  const START := State(0, false, {}, {}, {}, map[])

  /** The waits a waking of all answers. */
  function AllTrue(waiters: set<nat>): map<nat, bool> { map w | w in waiters :: true }

  function AfterClose(s: State, forward: nat): State {
    var left := s.(inFlight := s.inFlight - 1, open := s.open - {forward});
    if left.inFlight == 0 then left.(waiters := {}, answers := s.answers + AllTrue(s.waiters)) else left
  }

  /** One action; an action that cannot happen (a forward that was seen, a wait that is over) changes nothing. */
  function Next(s: State, a: Action): State {
    match a
    case Arrive(f) =>
      if f in s.open then s
      else if s.refusing then s.(refused := s.refused + {f})
      else s.(inFlight := s.inFlight + 1, open := s.open + {f})
    case Close(f) => if f in s.open then AfterClose(s, f) else s
    case Refuse => s.(refusing := true)
    case Drained(w) =>
      if w in s.answers || w in s.waiters then s
      else if s.inFlight == 0 then s.(answers := s.answers[w := true])
      else s.(waiters := s.waiters + {w})
    case Timeout(w) =>
      if w in s.waiters then s.(waiters := s.waiters - {w}, answers := s.answers[w := false]) else s
  }

  function Exec(s: State, actions: seq<Action>): State {
    if actions == [] then s else Next(Exec(s, actions[..|actions| - 1]), actions[|actions| - 1])
  }

  /** The counter counts the open forwards, and nobody waits once there are none. */
  ghost predicate Counts(s: State) {
    && s.inFlight == |s.open|
    && (s.waiters != {} ==> s.inFlight > 0)
    && (forall w :: w in s.waiters ==> w !in s.answers)
  }

  /** The forward's counter, its refusal and its waits, as the hooks change them. */
  class Forward {
    var inFlight: int
    var refusing: bool
    var waiters: set<nat>
    var answers: map<nat, bool>
    ghost var open: set<nat>
    ghost var refused: set<nat>

    ghost function Value(): State
      reads this
    {
      State(inFlight, refusing, open, refused, waiters, answers)
    }

    constructor ()
      ensures Value() == START
    {
      inFlight, refusing, waiters, answers, open, refused := 0, false, {}, map[], {}, {};
    }

    /** The pre-handler: whether the page is forwarded. */
    method PreHandler(forward: nat) returns (forwarded: bool)
      requires forward !in open
      modifies this
      ensures Value() == Next(old(Value()), Arrive(forward))
      ensures forwarded <==> !refusing
    {
      if refusing {
        refused := refused + {forward};
        return false;
      }
      inFlight := inFlight + 1;
      open := open + {forward};
      return true;
    }

    /** The `close` of a forward's response, which comes once. */
    method Settle(ghost forward: nat)
      requires forward in open && forall w :: w in waiters ==> w !in answers
      modifies this
      ensures Value() == Next(old(Value()), Close(forward))
    {
      inFlight := inFlight - 1;
      open := open - {forward};
      if inFlight == 0 {
        var rest := waiters;
        while rest != {}
          invariant rest == waiters <= old(waiters)
          invariant answers == old(answers) + AllTrue(old(waiters) - rest)
          invariant inFlight == old(inFlight) - 1 && refusing == old(refusing) && refused == old(refused)
          invariant open == old(open) - {forward}
          decreases rest
        {
          var wake :| wake in rest;
          rest := rest - {wake};
          Finish(wake, true);
        }
        assert old(waiters) - {} == old(waiters);
      }
    }

    method Finish(waiter: nat, value: bool)
      requires waiter in waiters
      modifies `waiters, `answers
      ensures waiters == old(waiters) - {waiter} && answers == old(answers)[waiter := value]
    {
      waiters := waiters - {waiter};
      answers := answers[waiter := value];
    }

    method Refuse()
      modifies `refusing
      ensures Value() == Next(old(Value()), Action.Refuse)
    {
      refusing := true;
    }

    method Drained(waiter: nat)
      requires waiter !in answers && waiter !in waiters
      modifies this
      ensures Value() == Next(old(Value()), Action.Drained(waiter))
    {
      if inFlight == 0 {
        answers := answers[waiter := true];
      } else {
        waiters := waiters + {waiter};
      }
    }

    /** The wait's timer, cleared when the wait is over. */
    method Timeout(waiter: nat)
      requires waiter in waiters
      modifies this
      ensures Value() == Next(old(Value()), Action.Timeout(waiter))
    {
      Finish(waiter, false);
    }
  }

  // -------------------------------------------------------------------------------------------------------------
  // Every run
  // -------------------------------------------------------------------------------------------------------------

  lemma NextCounts(s: State, a: Action)
    requires Counts(s)
    ensures Counts(Next(s, a))
  {
    if a.Close? && a.forward in s.open {
      assert |s.open - {a.forward}| == |s.open| - 1;
    }
  }

  /** Main result: in every run the counter equals the open forwards, and nobody is left waiting with none open. */
  lemma {:induction false} CounterIsOpen(actions: seq<Action>)
    ensures Counts(Exec(START, actions))
    decreases |actions|
  {
    if actions != [] {
      CounterIsOpen(actions[..|actions| - 1]);
      NextCounts(Exec(START, actions[..|actions| - 1]), actions[|actions| - 1]);
    }
  }

  lemma {:induction false} RefusedOnlyDrains(s: State, actions: seq<Action>)
    requires s.refusing && Counts(s)
    ensures var later := Exec(s, actions);
            later.refusing && Counts(later) && later.open <= s.open && later.inFlight <= s.inFlight
    decreases |actions|
  {
    if actions != [] {
      RefusedOnlyDrains(s, actions[..|actions| - 1]);
      NextCounts(Exec(s, actions[..|actions| - 1]), actions[|actions| - 1]);
    }
  }

  /** The action answers the wait. */
  predicate Answers(s: State, a: Action, waiter: nat, value: bool) {
    waiter !in s.answers && waiter in Next(s, a).answers && Next(s, a).answers[waiter] == value
  }

  /** Main result: after the refusal, an answer of true means no forward is in flight from then on. */
  lemma DrainedStaysDrained(before: seq<Action>, a: Action, after: seq<Action>, waiter: nat)
    requires Exec(START, before).refusing && Answers(Exec(START, before), a, waiter, true)
    ensures Exec(Next(Exec(START, before), a), after).inFlight == 0
    ensures Exec(Next(Exec(START, before), a), after).open == {}
  {
    CounterIsOpen(before);
    NextCounts(Exec(START, before), a);
    RefusedOnlyDrains(Next(Exec(START, before), a), after);
  }

  /** Whatever the refusal, true is answered with no forward in flight and false with one. */
  lemma AnswersTellTruth(before: seq<Action>, a: Action, waiter: nat, value: bool)
    requires Answers(Exec(START, before), a, waiter, value)
    ensures value <==> Next(Exec(START, before), a).inFlight == 0
  {
    CounterIsOpen(before);
    NextCounts(Exec(START, before), a);
  }

  lemma AnswerStands(s: State, a: Action, waiter: nat)
    requires waiter !in s.waiters && waiter in s.answers
    ensures waiter in Next(s, a).answers && Next(s, a).answers[waiter] == s.answers[waiter]
  {}

  /** An answer is given once. */
  lemma {:induction false} AnswersStand(s: State, actions: seq<Action>, waiter: nat)
    requires Counts(s) && waiter in s.answers
    ensures Counts(Exec(s, actions))
    ensures waiter in Exec(s, actions).answers && Exec(s, actions).answers[waiter] == s.answers[waiter]
    decreases |actions|
  {
    hide Next;
    if actions != [] {
      var before := Exec(s, actions[..|actions| - 1]);
      AnswersStand(s, actions[..|actions| - 1], waiter);
      NextCounts(before, actions[|actions| - 1]);
      AnswerStands(before, actions[|actions| - 1], waiter);
    }
  }

  /** Main result: once the last forward closes nobody waits, and each who did was answered. */
  lemma NobodyWaitsForever(s: State, actions: seq<Action>, waiter: nat)
    requires Counts(s) && waiter in s.waiters && Exec(s, actions).inFlight == 0
    ensures waiter in Exec(s, actions).answers
  {
    WaitsOrAnswered(s, actions, waiter);
  }

  /** A wait its timer ends is answered false then and there, whatever is in flight, and the others wait on. */
  lemma TimeoutEndsTheWait(actions: seq<Action>, waiter: nat)
    requires waiter in Exec(START, actions).waiters
    ensures var s, s' := Exec(START, actions), Exec(START, actions + [Timeout(waiter)]);
            && waiter in s'.answers && !s'.answers[waiter] && s'.waiters == s.waiters - {waiter}
            && s'.inFlight == s.inFlight && s'.refusing == s.refusing
  {
    assert (actions + [Timeout(waiter)])[..|actions|] == actions;
  }

  lemma StillWaitsOrAnswered(s: State, a: Action, waiter: nat)
    requires waiter in s.waiters || waiter in s.answers
    ensures waiter in Next(s, a).waiters || waiter in Next(s, a).answers
  {}

  lemma {:induction false} WaitsOrAnswered(s: State, actions: seq<Action>, waiter: nat)
    requires Counts(s) && (waiter in s.waiters || waiter in s.answers)
    ensures Counts(Exec(s, actions)) && (waiter in Exec(s, actions).waiters || waiter in Exec(s, actions).answers)
    decreases |actions|
  {
    hide Next;
    if actions != [] {
      var before := Exec(s, actions[..|actions| - 1]);
      WaitsOrAnswered(s, actions[..|actions| - 1], waiter);
      NextCounts(before, actions[|actions| - 1]);
      StillWaitsOrAnswered(before, actions[|actions| - 1], waiter);
    }
  }

  /** Before the refusal the answer promises nothing: the next page is forwarded. */
  lemma DrainedBeforeRefusalPromisesNothing(waiter: nat, forward: nat)
    ensures Answers(START, Drained(waiter), waiter, true)
    ensures Exec(Next(START, Drained(waiter)), [Arrive(forward)]).inFlight == 1
  {
    assert [Arrive(forward)][..0] == [];
  }
}
