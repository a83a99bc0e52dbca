/**
 * Server-sent-event streams and their shutdown (packages/http/src/fastify-adapter.ts): `registerStreamRoute`'s handler,
 * the stream it hands out, and the `preClose` hook.
 *
 * A close callback is the calls it makes, on its own stream or on any other: it may register more, send, or close, and a
 * close inside it runs that stream's callbacks then and there. One that throws is one whose calls stop there.
 */
module StreamLifecycle {
  datatype Call =
    | Send(stream: nat, text: string)
    | Close(stream: nat)
    | OnClose(stream: nat, callback: Callback)

  /** The calls of a callback, in order. */
  datatype Calls = Done | Then(call: Call, rest: Calls)

  datatype Callback = Callback(id: nat, calls: Calls)

  /**
   * One stream's flags and callback list; what was written to it and which callbacks ran, in order; and whether a bound
   * on its end is set, after which its socket is destroyed regardless.
   */
  datatype Stream = Stream(ending: bool, closed: bool, callbacks: seq<Callback>, written: seq<string>, ran: seq<Callback>,
                           bounded: bool)

  const OPENED := Stream(false, false, [], [], [], false)

  /** What has happened to the streams: a call made on one that is there, or the hook that ends those open. */
  datatype Event = Made(call: Call) | Stopped

  /** Streams are numbered as they open. As history, `log` is every callback started and `events` all that happened. */
  datatype State = State(stopping: bool, open: set<nat>, streams: seq<Stream>, log: seq<Callback>, events: seq<Event>)

  const START := State(false, {}, [], [], [])

  /** One turn of the event loop. `Closing` is any of the request's `close` and `error` events, or a handler that threw. */
  datatype Action =
    | Open
    | Calls(call: Call)
    | Closing(stream: nat)
    | PreClose

  // -------------------------------------------------------------------------------------------------------------
  // What is left to run
  // -------------------------------------------------------------------------------------------------------------

  /** The callbacks there are in these calls, at any depth. */
  function Weight(calls: Calls): nat { if calls.Done? then 0 else CallWeight(calls.call) + Weight(calls.rest) }

  function CallWeight(call: Call): nat { if call.OnClose? then 1 + Weight(call.callback.calls) else 0 }

  function Length(calls: Calls): nat { if calls.Done? then 0 else 1 + Length(calls.rest) }

  function ListWeight(list: seq<Callback>): nat {
    if list == [] then 0 else 1 + Weight(list[0].calls) + ListWeight(list[1..])
  }

  /** The callbacks of a stream that have not been started. */
  function Waiting(s: Stream): seq<Callback> { if |s.ran| <= |s.callbacks| then s.callbacks[|s.ran|..] else [] }

  function TotalWeight(streams: seq<Stream>): nat {
    if streams == [] then 0 else ListWeight(Waiting(streams[0])) + TotalWeight(streams[1..])
  }

  lemma {:induction false} ListWeightSum(a: seq<Callback>, b: seq<Callback>)
    ensures ListWeight(a + b) == ListWeight(a) + ListWeight(b)
    decreases |a|
  {
    if a == [] {
      assert a + b == b;
    } else {
      ListWeightSum(a[1..], b);
      assert (a + b)[1..] == a[1..] + b;
    }
  }

  lemma {:induction false} WeightAt(streams: seq<Stream>, n: nat, s: Stream)
    requires n < |streams|
    ensures TotalWeight(streams[n := s]) == TotalWeight(streams) - ListWeight(Waiting(streams[n])) + ListWeight(Waiting(s))
    decreases n
  {
    hide Waiting;
    if n == 0 {
      assert streams[n := s][1..] == streams[1..];
    } else {
      WeightAt(streams[1..], n - 1, s);
      assert streams[n := s][1..] == streams[1..][n - 1 := s];
    }
  }

  function Appended(s: Stream, callback: Callback): Stream { s.(callbacks := s.callbacks + [callback]) }

  lemma AppendedWeight(s: Stream, callback: Callback)
    ensures ListWeight(Waiting(Appended(s, callback))) <= ListWeight(Waiting(s)) + 1 + Weight(callback.calls)
  {
    ListWeightSum(Waiting(s), [callback]);
    assert [callback][1..] == [];
    if |s.ran| <= |s.callbacks| {
      assert Waiting(Appended(s, callback)) == Waiting(s) + [callback];
    } else {
      assert Waiting(Appended(s, callback)) == [];
    }
  }

  /** The next callback taken off those that wait. */
  function Started(s: Stream): Stream
    requires |s.ran| < |s.callbacks|
  {
    s.(ran := s.ran + [s.callbacks[|s.ran|]])
  }

  lemma StartedWeight(s: Stream)
    requires |s.ran| < |s.callbacks|
    ensures ListWeight(Waiting(Started(s))) == ListWeight(Waiting(s)) - 1 - Weight(s.callbacks[|s.ran|].calls)
  {
    assert Waiting(s)[0] == s.callbacks[|s.ran|] && Waiting(s)[1..] == Waiting(Started(s));
  }

  // -------------------------------------------------------------------------------------------------------------
  // The calls
  // -------------------------------------------------------------------------------------------------------------

  function Ended(s: Stream): Stream { s.(ending := true) }

  function With(s: State, n: nat, stream: Stream): State
    requires n < |s.streams|
  {
    s.(streams := s.streams[n := stream])
  }

  /** The call is put down, and nothing done yet. */
  function Noted(s: State, call: Call): State { s.(events := s.events + [Made(call)]) }

  /** Ended, closed and off the open ones: a close up to its loop. */
  function Shut(s: State, n: nat): State
    requires n < |s.streams|
  {
    With(s, n, Ended(s.streams[n]).(closed := true)).(open := s.open - {n})
  }

  function Starts(s: State, n: nat): State
    requires n < |s.streams| && |s.streams[n].ran| < |s.streams[n].callbacks|
  {
    With(s, n, Started(s.streams[n])).(log := s.log + [s.streams[n].callbacks[|s.streams[n].ran|]])
  }

  /** A callback's calls, one after another. */
  function Performed(s: State, calls: Calls): (t: State)
    ensures |t.streams| == |s.streams| && TotalWeight(t.streams) <= TotalWeight(s.streams) + Weight(calls)
    decreases TotalWeight(s.streams) + Weight(calls), 1 + Length(calls)
  {
    if calls.Done? then s else Performed(Called(s, calls.call), calls.rest)
  }

  /** One call, with everything it runs. One on a stream that was never opened changes nothing. */
  function Called(s: State, call: Call): (t: State)
    ensures |t.streams| == |s.streams| && TotalWeight(t.streams) <= TotalWeight(s.streams) + CallWeight(call)
    decreases TotalWeight(s.streams) + CallWeight(call), 1
  {
    var n := call.stream;
    if n >= |s.streams| then s
    else
      var stream, m := s.streams[n], Noted(s, call);
      match call
      case Send(_, text) =>
        WeightAt(s.streams, n, stream.(written := stream.written + [text]));
        if stream.ending then m else With(m, n, stream.(written := stream.written + [text]))
      case Close(_) =>
        WeightAt(s.streams, n, Ended(stream));
        WeightAt(s.streams, n, Ended(stream).(closed := true));
        if stream.closed then With(m, n, Ended(stream)) else Looped(Shut(m, n), n)
      case OnClose(_, callback) =>
        WeightAt(s.streams, n, Appended(stream, callback));
        AppendedWeight(stream, callback);
        With(m, n, Appended(stream, callback))
  }

  /** The loop of a close: the callbacks of the list in order, those included that are added to it meanwhile. */
  function Looped(s: State, n: nat): (t: State)
    requires n < |s.streams|
    ensures |t.streams| == |s.streams| && TotalWeight(t.streams) <= TotalWeight(s.streams)
    decreases TotalWeight(s.streams), 0
  {
    var stream := s.streams[n];
    if |stream.ran| >= |stream.callbacks| then s
    else
      WeightAt(s.streams, n, Started(stream));
      StartedWeight(stream);
      Looped(Performed(Starts(s, n), stream.callbacks[|stream.ran|].calls), n)
  }

  /** A turn. */
  function Next(s: State, a: Action): State {
    match a
    case Open => if s.stopping then s else s.(open := s.open + {|s.streams|}, streams := s.streams + [OPENED])
    case Calls(call) => Called(s, call)
    case Closing(stream) => Called(s, Close(stream))
    case PreClose =>
      s.(stopping := true, events := s.events + [Stopped],
      streams := seq(|s.streams|, n requires 0 <= n < |s.streams| =>
                   if n in s.open then Ended(s.streams[n]).(bounded := true) else s.streams[n]))
  }

  function Exec(s: State, actions: seq<Action>): State {
    if actions == [] then s else Next(Exec(s, actions[..|actions| - 1]), actions[|actions| - 1])
  }

  // -------------------------------------------------------------------------------------------------------------
  // How one stream goes on
  // -------------------------------------------------------------------------------------------------------------

  /** How often the call is among these. */
  function CallsIn(calls: Calls, call: Call): nat {
    if calls.Done? then 0 else (if calls.call == call then 1 else 0) + CallsIn(calls.rest, call)
  }

  /** How often the callbacks of the list make it. */
  function CallsBy(list: seq<Callback>, call: Call): nat {
    if list == [] then 0 else CallsBy(list[..|list| - 1], call) + CallsIn(list[|list| - 1].calls, call)
  }

  /** How often the callback is registered on the stream: by one call, by these, and by the callbacks of a list. */
  function CallTimes(call: Call, n: nat, c: Callback): nat { if call == OnClose(n, c) then 1 else 0 }

  function Times(calls: Calls, n: nat, c: Callback): nat { CallsIn(calls, OnClose(n, c)) }

  function TimesBy(list: seq<Callback>, n: nat, c: Callback): nat { CallsBy(list, OnClose(n, c)) }

  function Count(list: seq<Callback>, c: Callback): nat { multiset(list)[c] }

  lemma OneMore(list: seq<Callback>, last: Callback, n: nat, c: Callback)
    ensures TimesBy(list + [last], n, c) == TimesBy(list, n, c) + Times(last.calls, n, c)
    ensures Count(list + [last], c) == Count(list, c) + if last == c then 1 else 0
  {
    assert (list + [last])[..|list|] == list;
  }

  lemma CountPrefix(a: seq<Callback>, b: seq<Callback>, c: Callback)
    requires a <= b
    ensures Count(a, c) <= Count(b, c)
  {
    assert b == a + b[|a|..];
  }

  /** An ended stream is written no more, lists only grow, and callbacks run only in a close. */
  ghost predicate GoesOn(s: Stream, t: Stream) {
    && (s.ending ==> t.ending && t.written == s.written)
    && (s.closed ==> t.closed)
    && (s.bounded ==> t.bounded)
    && s.written <= t.written && s.callbacks <= t.callbacks && s.ran <= t.ran
    && (!t.closed ==> t.ran == s.ran)
  }

  /**
   * From `s` to `t`: the stream's list gains the callback exactly as often as it is registered there, `extra` times by
   * the calls themselves and else by callbacks started meanwhile, its own among them; and a close of it in between runs
   * the list it found first, and everything its own callbacks register.
   */
  ghost predicate Goes(s: State, t: State, n: nat, c: Callback, extra: nat) {
    && n < |s.streams| == |t.streams|
    && var a, b := s.streams[n], t.streams[n];
       && GoesOn(a, b)
       && Count(b.callbacks, c) + TimesBy(s.log, n, c) == Count(a.callbacks, c) + TimesBy(t.log, n, c) + extra
       && TimesBy(s.log, n, c) + TimesBy(b.ran, n, c) <= TimesBy(t.log, n, c) + TimesBy(a.ran, n, c)
       && (!a.closed && b.closed ==>
             && a.callbacks <= b.ran
             && Count(a.callbacks, c) + TimesBy(b.ran, n, c) <= Count(b.ran, c) + TimesBy(a.ran, n, c))
  }

  /** A stream that was closed runs nothing. */
  predicate Rests(s: State, t: State, n: nat)
    requires n < |s.streams| == |t.streams|
  {
    s.streams[n].closed ==> t.streams[n].ran == s.streams[n].ran
  }

  predicate OnlyClosedRan(s: State) { forall n :: 0 <= n < |s.streams| && !s.streams[n].closed ==> s.streams[n].ran == [] }

  lemma GoesThen(s: State, u: State, t: State, n: nat, c: Callback, x: nat, y: nat)
    requires Goes(s, u, n, c, x) && Goes(u, t, n, c, y) && (s.streams[n].closed || Rests(u, t, n))
    ensures Goes(s, t, n, c, x + y)
  {
    hide TimesBy;
    hide Count;
    CountPrefix(s.streams[n].callbacks, u.streams[n].callbacks, c);
  }

  lemma GoesNowhere(s: State, n: nat, c: Callback)
    requires n < |s.streams|
    ensures Goes(s, s, n, c, 0)
  {}

  lemma {:induction false} PerformedGoes(s: State, calls: Calls, n: nat, c: Callback)
    requires n < |s.streams| && OnlyClosedRan(s)
    ensures Goes(s, Performed(s, calls), n, c, Times(calls, n, c)) && Rests(s, Performed(s, calls), n)
    ensures OnlyClosedRan(Performed(s, calls))
    decreases TotalWeight(s.streams) + Weight(calls), 3 + Length(calls)
  {
    hide Called;
    if calls.Done? {
      GoesNowhere(s, n, c);
    } else {
      var u := Called(s, calls.call);
      CalledGoes(s, calls.call, n, c);
      PerformedGoes(u, calls.rest, n, c);
      hide Performed;
      assert GoesOn(s.streams[n], u.streams[n]);
      GoesThen(s, u, Performed(u, calls.rest), n, c, CallTimes(calls.call, n, c), Times(calls.rest, n, c));
      PerformedUnfolds(s, calls);
    }
  }

  lemma PerformedUnfolds(s: State, calls: Calls)
    requires calls.Then?
    ensures Performed(s, calls) == Performed(Called(s, calls.call), calls.rest)
  {}

  lemma {:induction false} CalledGoes(s: State, call: Call, n: nat, c: Callback)
    requires n < |s.streams| && OnlyClosedRan(s)
    ensures Goes(s, Called(s, call), n, c, CallTimes(call, n, c)) && Rests(s, Called(s, call), n)
    ensures OnlyClosedRan(Called(s, call))
    decreases TotalWeight(s.streams) + CallWeight(call), 3
  {
    hide Goes;
    hide Looped;
    hide TotalWeight;
    var m := call.stream;
    if m < |s.streams| && call.Close? && !s.streams[m].closed {
      WeightAt(s.streams, m, Ended(s.streams[m]).(closed := true));
      CloseGoes(s, m, n, c);
    } else {
      PlainCallGoes(s, call, n, c);
    }
  }

  /** A call that runs nothing. */
  lemma PlainCallGoes(s: State, call: Call, n: nat, c: Callback)
    requires n < |s.streams| && OnlyClosedRan(s)
    requires call.stream < |s.streams| && call.Close? ==> s.streams[call.stream].closed
    ensures Goes(s, Called(s, call), n, c, CallTimes(call, n, c)) && Rests(s, Called(s, call), n)
    ensures OnlyClosedRan(Called(s, call))
  {
    hide Looped;
    hide TotalWeight;
    hide TimesBy;
    hide Count;
    if call.OnClose? && call.stream == n {
      OneMore(s.streams[n].callbacks, call.callback, n, c);
    }
  }

  lemma {:induction false} CloseGoes(s: State, m: nat, n: nat, c: Callback)
    requires n < |s.streams| && m < |s.streams| && !s.streams[m].closed && OnlyClosedRan(s)
    ensures var t := Looped(Shut(Noted(s, Close(m)), m), m);
            Goes(s, t, n, c, 0) && Rests(s, t, n) && OnlyClosedRan(t)
    decreases TotalWeight(s.streams), 2
  {
    hide Looped;
    hide TimesBy;
    hide Count;
    hide Weight;
    hide TotalWeight;
    WeightAt(s.streams, m, Ended(s.streams[m]).(closed := true));
    LoopedGoes(Shut(Noted(s, Close(m)), m), m, n, c);
  }

  /** One turn of the loop: what the callback registers is on the lists, and it is in the log. */
  lemma {:induction false} TurnGoes(s: State, m: nat, n: nat, c: Callback)
    requires n < |s.streams| && m < |s.streams| && s.streams[m].closed && |s.streams[m].ran| < |s.streams[m].callbacks|
    requires OnlyClosedRan(s)
    ensures var u := Performed(Starts(s, m), s.streams[m].callbacks[|s.streams[m].ran|].calls);
            && Goes(s, u, n, c, 0) && OnlyClosedRan(u) && u.streams[m].closed && u.streams[m].ran == Started(s.streams[m]).ran
            && (n != m ==> Rests(s, u, n))
    decreases TotalWeight(s.streams), 0
  {
    hide Performed;
    hide TimesBy;
    hide Count;
    hide Weight;
    hide TotalWeight;
    var callback := s.streams[m].callbacks[|s.streams[m].ran|];
    var s1 := Starts(s, m);
    WeightAt(s.streams, m, Started(s.streams[m]));
    StartedWeight(s.streams[m]);
    PerformedGoes(s1, callback.calls, n, c);
    PerformedGoes(s1, callback.calls, m, c);
    OneMore(s.log, callback, n, c);
    OneMore(s.streams[n].ran, callback, n, c);
  }

  lemma {:induction false} LoopedGoes(s: State, m: nat, n: nat, c: Callback)
    requires n < |s.streams| && m < |s.streams| && s.streams[m].closed && s.streams[m].ran <= s.streams[m].callbacks
    requires OnlyClosedRan(s)
    ensures var t := Looped(s, m);
            && Goes(s, t, n, c, 0) && OnlyClosedRan(t) && (n != m ==> Rests(s, t, n))
            && t.streams[m].closed && t.streams[m].ran == t.streams[m].callbacks
    decreases TotalWeight(s.streams), 1
  {
    hide Performed;
    hide TimesBy;
    hide Count;
    hide Weight;
    hide TotalWeight;
    if |s.streams[m].ran| >= |s.streams[m].callbacks| {
      GoesNowhere(s, n, c);
    } else {
      LoopedUnfolds(s, m);
      var u := Performed(Starts(s, m), s.streams[m].callbacks[|s.streams[m].ran|].calls);
      TurnGoes(s, m, n, c);
      TurnGoes(s, m, m, c);
      LoopedGoes(u, m, n, c);
      GoesThen(s, u, Looped(u, m), n, c, 0, 0);
    }
  }

  lemma LoopedUnfolds(s: State, m: nat)
    requires m < |s.streams| && |s.streams[m].ran| < |s.streams[m].callbacks|
    ensures var u := Performed(Starts(s, m), s.streams[m].callbacks[|s.streams[m].ran|].calls);
            Looped(s, m) == Looped(u, m) && TotalWeight(u.streams) < TotalWeight(s.streams)
  {
    WeightAt(s.streams, m, Started(s.streams[m]));
    StartedWeight(s.streams[m]);
  }

  // -------------------------------------------------------------------------------------------------------------
  // Callbacks that keep to their own stream
  // -------------------------------------------------------------------------------------------------------------

  /** The callbacks that these calls register, on any stream. */
  function Registered(calls: Calls): seq<Callback> {
    if calls.Done? then []
    else if calls.call.OnClose? then [calls.call.callback] + Registered(calls.rest)
    else Registered(calls.rest)
  }

  function RegisteredByAll(callbacks: seq<Callback>): seq<Callback> {
    if callbacks == [] then [] else Registered(callbacks[0].calls) + RegisteredByAll(callbacks[1..])
  }

  lemma {:induction false} RegisteredWeight(calls: Calls)
    ensures ListWeight(Registered(calls)) == Weight(calls)
    decreases calls
  {
    if calls.Then? {
      RegisteredWeight(calls.rest);
      if calls.call.OnClose? {
        assert Registered(calls)[1..] == Registered(calls.rest);
      }
    }
  }

  /** A queue that grows while it is worked off: each callback in turn, and at the end what it registers. */
  function RunBy(queue: seq<Callback>): (ran: seq<Callback>)
    decreases ListWeight(queue)
  {
    if queue == [] then []
    else
      QueueShrinks(queue);
      [queue[0]] + RunBy(queue[1..] + Registered(queue[0].calls))
  }

  lemma QueueShrinks(queue: seq<Callback>)
    requires queue != []
    ensures ListWeight(queue[1..] + Registered(queue[0].calls)) < ListWeight(queue)
  {
    ListWeightSum(queue[1..], Registered(queue[0].calls));
    RegisteredWeight(queue[0].calls);
  }

  /** What runs is the list followed by what each of those that ran registered, in order: nothing is lost or repeated. */
  lemma {:induction false} RunByIsAll(queue: seq<Callback>)
    ensures RunBy(queue) == queue + RegisteredByAll(RunBy(queue))
    decreases ListWeight(queue)
  {
    if queue != [] {
      QueueShrinks(queue);
      var added := Registered(queue[0].calls);
      RunByIsAll(queue[1..] + added);
      RunByUnfolds(queue);
      FirstThenAll(queue, added, RunBy(queue[1..] + added));
    }
  }

  lemma RunByUnfolds(queue: seq<Callback>)
    requires queue != []
    ensures RunBy(queue) == [queue[0]] + RunBy(queue[1..] + Registered(queue[0].calls))
  {}

  lemma FirstThenAll(queue: seq<Callback>, added: seq<Callback>, rest: seq<Callback>)
    requires queue != [] && added == Registered(queue[0].calls) && rest == queue[1..] + added + RegisteredByAll(rest)
    ensures [queue[0]] + rest == queue + RegisteredByAll([queue[0]] + rest)
  {
    assert ([queue[0]] + rest)[1..] == rest;
    assert RegisteredByAll([queue[0]] + rest) == added + RegisteredByAll(rest);
    assert queue == [queue[0]] + queue[1..];
  }

  /** The calls, and those of every callback they register, are on the stream `n`. */
  predicate KeepsTo(calls: Calls, n: nat) {
    calls.Then? ==>
      && calls.call.stream == n && KeepsTo(calls.rest, n)
      && (calls.call.OnClose? ==> KeepsTo(calls.call.callback.calls, n))
  }

  predicate AllKeepTo(list: seq<Callback>, n: nat) { forall i :: 0 <= i < |list| ==> KeepsTo(list[i].calls, n) }

  lemma {:induction false} RegisteredKeepTo(calls: Calls, n: nat)
    requires KeepsTo(calls, n)
    ensures AllKeepTo(Registered(calls), n)
    decreases calls
  {
    if calls.Then? {
      RegisteredKeepTo(calls.rest, n);
    }
  }

  /** On a closed stream such calls do nothing but register. */
  lemma {:induction false} OwnCallsRegister(s: State, calls: Calls, n: nat)
    requires n < |s.streams| && s.streams[n].closed && s.streams[n].ending && KeepsTo(calls, n)
    ensures OnlyListed(s, Performed(s, calls), n, s.streams[n].callbacks + Registered(calls))
    decreases calls
  {
    hide Called;
    hide Performed;
    hide KeepsTo;
    var list := s.streams[n].callbacks;
    if calls.Done? {
      DoneRegisters(s, calls, n);
    } else {
      PerformedUnfolds(s, calls);
      OwnCallRegisters(s, calls, n);
      var added := if calls.call.OnClose? then [calls.call.callback] else [];
      var u := Called(s, calls.call);
      OwnCallsRegister(u, calls.rest, n);
      assert list + added + Registered(calls.rest) == list + Registered(calls);
      OnlyListedTwice(s, u, Performed(u, calls.rest), n);
    }
  }

  /** But for what is put down, only the stream's list has changed. */
  predicate OnlyListed(s: State, t: State, n: nat, list: seq<Callback>)
    requires n < |s.streams|
  {
    t == With(s, n, s.streams[n].(callbacks := list)).(events := t.events)
  }

  lemma OnlyListedTwice(s: State, u: State, t: State, n: nat)
    requires n < |s.streams| == |u.streams| == |t.streams|
    requires OnlyListed(s, u, n, u.streams[n].callbacks) && OnlyListed(u, t, n, t.streams[n].callbacks)
    ensures OnlyListed(s, t, n, t.streams[n].callbacks)
  {
    assert s.streams[n := u.streams[n]][n := t.streams[n]] == s.streams[n := t.streams[n]];
  }

  lemma DoneRegisters(s: State, calls: Calls, n: nat)
    requires calls.Done? && n < |s.streams|
    ensures OnlyListed(s, Performed(s, calls), n, s.streams[n].callbacks + Registered(calls))
  {
    assert s.streams[n].callbacks + [] == s.streams[n].callbacks;
  }

  lemma OwnCallRegisters(s: State, calls: Calls, n: nat)
    requires calls.Then? && n < |s.streams| && s.streams[n].closed && s.streams[n].ending && KeepsTo(calls, n)
    ensures KeepsTo(calls.rest, n)
    ensures OnlyListed(s, Called(s, calls.call), n,
                       s.streams[n].callbacks + if calls.call.OnClose? then [calls.call.callback] else [])
  {
    assert s.streams[n].callbacks + [] == s.streams[n].callbacks;
  }

  /** Then the loop is the growing queue, and touches no other stream. */
  lemma {:induction false} OwnLoopRuns(s: State, n: nat)
    requires n < |s.streams| && s.streams[n].closed && s.streams[n].ending && s.streams[n].ran <= s.streams[n].callbacks
    requires AllKeepTo(Waiting(s.streams[n]), n)
    ensures var ran := s.streams[n].ran + RunBy(Waiting(s.streams[n]));
            Looped(s, n).streams == s.streams[n := s.streams[n].(callbacks := ran, ran := ran)]
    decreases TotalWeight(s.streams)
  {
    hide Performed;
    hide RunBy;
    hide TotalWeight;
    hide KeepsTo;
    var stream := s.streams[n];
    var waiting := Waiting(stream);
    if |stream.ran| >= |stream.callbacks| {
      NothingWaits(stream);
    } else {
      var callback := stream.callbacks[|stream.ran|];
      assert waiting[0] == callback && waiting[1..] == Waiting(Started(stream));
      LoopedUnfolds(s, n);
      OwnCallsRegister(Starts(s, n), callback.calls, n);
      RegisteredKeepTo(callback.calls, n);
      RunByUnfolds(waiting);
      var u := Performed(Starts(s, n), callback.calls);
      NextWaiting(stream, u.streams[n]);
      OwnLoopRuns(u, n);
      assert stream.ran + RunBy(waiting) == u.streams[n].ran + RunBy(Waiting(u.streams[n]));
    }
  }

  lemma NothingWaits(s: Stream)
    requires s.ran <= s.callbacks && |s.ran| >= |s.callbacks|
    ensures s.ran == s.callbacks && s.ran + RunBy(Waiting(s)) == s.ran
  {}

  lemma NextWaiting(s: Stream, t: Stream)
    requires s.ran <= s.callbacks && |s.ran| < |s.callbacks|
    requires t == Started(s).(callbacks := s.callbacks + Registered(s.callbacks[|s.ran|].calls))
    ensures Waiting(t) == Waiting(s)[1..] + Registered(Waiting(s)[0].calls) && t.ran <= t.callbacks
  {}

  // -------------------------------------------------------------------------------------------------------------
  // Every run
  // -------------------------------------------------------------------------------------------------------------

  /** A stream's flags agree: what closed has ended, and the callbacks that ran are a first part of its list. */
  ghost predicate Consistent(s: Stream) {
    && (s.closed ==> s.ending && s.ran <= s.callbacks)
    && (!s.closed ==> s.ran == [])
  }

  /** Open are exactly the streams not closed, and once stopping each of them is ending and bounded. */
  ghost predicate Inv(s: State) {
    && (forall n: nat :: n in s.open <==> n < |s.streams| && !s.streams[n].closed)
    && (forall n :: 0 <= n < |s.streams| ==> Consistent(s.streams[n]))
    && (s.stopping ==> forall n :: n in s.open && n < |s.streams| ==> s.streams[n].ending && s.streams[n].bounded)
  }

  lemma {:induction false} PerformedKeepsInv(s: State, calls: Calls)
    requires Inv(s)
    ensures Inv(Performed(s, calls)) && Performed(s, calls).stopping == s.stopping && Performed(s, calls).open <= s.open
    decreases TotalWeight(s.streams) + Weight(calls), 2 + Length(calls)
  {
    hide Called;
    hide Inv;
    if calls.Then? {
      CalledKeepsInv(s, calls.call);
      PerformedKeepsInv(Called(s, calls.call), calls.rest);
    }
  }

  lemma {:induction false} CalledKeepsInv(s: State, call: Call)
    requires Inv(s)
    ensures Inv(Called(s, call)) && Called(s, call).stopping == s.stopping && Called(s, call).open <= s.open
    decreases TotalWeight(s.streams) + CallWeight(call), 1
  {
    hide Looped;
    hide TotalWeight;
    var n := call.stream;
    if n < |s.streams| && call.Close? && !s.streams[n].closed {
      WeightAt(s.streams, n, Ended(s.streams[n]).(closed := true));
      LoopedKeepsInv(Shut(Noted(s, call), n), n);
    }
  }

  lemma {:induction false} LoopedKeepsInv(s: State, n: nat)
    requires Inv(s) && n < |s.streams| && s.streams[n].closed
    ensures Inv(Looped(s, n)) && Looped(s, n).stopping == s.stopping && Looped(s, n).open <= s.open
    decreases TotalWeight(s.streams), 0
  {
    hide Performed;
    hide TotalWeight;
    hide Goes;
    var stream := s.streams[n];
    if |stream.ran| < |stream.callbacks| {
      var callback := stream.callbacks[|stream.ran|];
      WeightAt(s.streams, n, Started(stream));
      StartedWeight(stream);
      LoopedUnfolds(s, n);
      PerformedKeepsInv(Starts(s, n), callback.calls);
      TurnGoes(s, n, n, callback);
      LoopedKeepsInv(Performed(Starts(s, n), callback.calls), n);
    }
  }

  lemma NextKeepsInv(s: State, a: Action)
    requires Inv(s)
    ensures Inv(Next(s, a))
  {
    hide Called;
    if a.Calls? {
      CalledKeepsInv(s, a.call);
    } else if a.Closing? {
      CalledKeepsInv(s, Close(a.stream));
    }
  }

  /** Main result: in every run, once stopping, every open stream is ending and its socket's end is bounded. */
  lemma {:induction false} ExecKeepsInv(s: State, actions: seq<Action>)
    requires Inv(s)
    ensures Inv(Exec(s, actions))
    decreases |actions|
  {
    hide Inv;
    hide Next;
    if actions != [] {
      ExecKeepsInv(s, actions[..|actions| - 1]);
      NextKeepsInv(Exec(s, actions[..|actions| - 1]), actions[|actions| - 1]);
    }
  }

  /** A stream through whole turns: it goes on, and a close that is done is done. */
  ghost predicate TurnsGoOn(s: State, t: State, n: nat) {
    n < |s.streams| <= |t.streams| && GoesOn(s.streams[n], t.streams[n])
    && (s.streams[n].closed ==> t.streams[n].ran == s.streams[n].ran)
  }

  lemma NextGoesOn(s: State, a: Action, n: nat)
    requires Inv(s) && n < |s.streams|
    ensures TurnsGoOn(s, Next(s, a), n)
  {
    hide Called;
    hide TimesBy;
    var c := Callback(0, Done);
    if a.Calls? {
      CalledGoes(s, a.call, n, c);
    } else if a.Closing? {
      CalledGoes(s, Close(a.stream), n, c);
    }
  }

  /** Main result: nothing is written to a stream after it starts ending, and no callback runs after its close. */
  lemma {:induction false} StreamsGoOn(s: State, actions: seq<Action>, n: nat)
    requires Inv(s) && n < |s.streams|
    ensures TurnsGoOn(s, Exec(s, actions), n)
    decreases |actions|
  {
    hide Next;
    hide Inv;
    if actions != [] {
      var before := actions[..|actions| - 1];
      StreamsGoOn(s, before, n);
      ExecKeepsInv(s, before);
      NextGoesOn(Exec(s, before), actions[|actions| - 1], n);
    }
  }

  /** The hook ends each open stream and bounds its end, closes none, runs nothing, and leaves the others as they are. */
  lemma HookEndsTheOpen(s: State, n: nat)
    requires n < |s.streams|
    ensures var t := Next(s, PreClose);
            && t.stopping && t.open == s.open && t.log == s.log && |t.streams| == |s.streams|
            && (n in s.open ==>
                  && t.streams[n].ending && t.streams[n].bounded && t.streams[n].closed == s.streams[n].closed
                  && t.streams[n].written == s.streams[n].written && t.streams[n].callbacks == s.streams[n].callbacks
                  && t.streams[n].ran == s.streams[n].ran)
            && (n !in s.open ==> t.streams[n] == s.streams[n])
  {}

  /** Main result: once stopping, no stream joins the open ones. */
  lemma {:induction false} NoneJoinsOnceStopping(s: State, actions: seq<Action>)
    requires Inv(s) && s.stopping
    ensures Exec(s, actions).stopping && Exec(s, actions).open <= s.open && |Exec(s, actions).streams| == |s.streams|
    decreases |actions|
  {
    hide Called;
    hide Inv;
    if actions != [] {
      var before, a := actions[..|actions| - 1], actions[|actions| - 1];
      NoneJoinsOnceStopping(s, before);
      ExecKeepsInv(s, before);
      if a.Calls? || a.Closing? {
        CalledKeepsInv(Exec(s, before), if a.Calls? then a.call else Close(a.stream));
      }
    }
  }

  /** The turn closes the stream. */
  predicate ClosesBy(s: State, a: Action, n: nat) {
    n < |s.streams| && !s.streams[n].closed && n < |Next(s, a).streams| && Next(s, a).streams[n].closed
  }

  /**
   * Main result: none of a stream's callbacks runs before the turn that closes it, and none after. In that turn run, in
   * order, those on its list, and then, each as often as it is registered, whatever they register themselves; other
   * streams' callbacks may add to the list too, and it holds exactly what was registered.
   */
  lemma CallbacksRunOnce(before: seq<Action>, a: Action, after: seq<Action>, n: nat, c: Callback)
    requires ClosesBy(Exec(START, before), a, n)
    ensures var s := Exec(START, before);
            var t, last := Next(s, a), Exec(Next(s, a), after);
            && n < |last.streams| && s.streams[n].ran == [] && last.streams[n].ran == t.streams[n].ran
            && s.streams[n].callbacks <= t.streams[n].ran <= t.streams[n].callbacks
            && Count(s.streams[n].callbacks, c) + TimesBy(t.streams[n].ran, n, c) <= Count(t.streams[n].ran, c)
            && Count(t.streams[n].callbacks, c) + TimesBy(s.log, n, c)
               == Count(s.streams[n].callbacks, c) + TimesBy(t.log, n, c)
  {
    hide Called;
    hide Inv;
    hide TimesBy;
    hide Count;
    var s, t := Exec(START, before), Next(Exec(START, before), a);
    StartIsInv();
    ExecKeepsInv(START, before);
    NextKeepsInv(s, a);
    StreamsGoOn(t, after, n);
    ClosingGoes(s, a, n, c);
  }

  lemma StartIsInv()
    ensures Inv(START)
  {}

  lemma ClosingGoes(s: State, a: Action, n: nat, c: Callback)
    requires Inv(s) && Inv(Next(s, a)) && ClosesBy(s, a, n)
    ensures Goes(s, Next(s, a), n, c, 0) && s.streams[n].ran == [] && TimesBy(s.streams[n].ran, n, c) == 0
    ensures Next(s, a).streams[n].ran <= Next(s, a).streams[n].callbacks
  {
    hide Goes;
    if a.Calls? {
      CalledGoes(s, a.call, n, c);
    } else if a.Closing? {
      CalledGoes(s, Close(a.stream), n, c);
    }
  }

  lemma OwnCloseRuns(s: State, n: nat)
    requires Inv(s) && n < |s.streams| && !s.streams[n].closed && AllKeepTo(s.streams[n].callbacks, n)
    ensures var t := Called(s, Close(n));
            && t.streams[n].ran == RunBy(s.streams[n].callbacks)
            && forall m :: 0 <= m < |s.streams| && m != n ==> t.streams[m] == s.streams[m]
  {
    hide Called;
    hide RunBy;
    hide KeepsTo;
    hide Looped;
    hide TotalWeight;
    var queue := s.streams[n].callbacks;
    var shut := Shut(Noted(s, Close(n)), n);
    CloseShuts(s, n);
    assert Waiting(shut.streams[n]) == queue && [] + RunBy(queue) == RunBy(queue);
    OwnLoopRuns(shut, n);
  }

  /** Main result: a close whose callbacks keep to the stream runs its list and then all they register, in that order. */
  lemma OwnCallbacksRunInOrder(before: seq<Action>, n: nat)
    requires var s := Exec(START, before); n < |s.streams| && !s.streams[n].closed && AllKeepTo(s.streams[n].callbacks, n)
    ensures var s, t := Exec(START, before), Next(Exec(START, before), Closing(n));
            && t.streams[n].ran == s.streams[n].callbacks + RegisteredByAll(t.streams[n].ran)
            && forall m :: 0 <= m < |s.streams| && m != n ==> t.streams[m] == s.streams[m]
  {
    hide Called;
    hide Exec;
    hide RunBy;
    hide AllKeepTo;
    hide Inv;
    StartIsInv();
    ExecKeepsInv(START, before);
    OwnCloseRuns(Exec(START, before), n);
    RunByIsAll(Exec(START, before).streams[n].callbacks);
  }

  // -------------------------------------------------------------------------------------------------------------
  // What was sent and registered
  // -------------------------------------------------------------------------------------------------------------

  /** The stream was closed, or the hook ended all. */
  predicate EndedBy(events: seq<Event>, n: nat) { Stopped in events || Made(Close(n)) in events }

  /** The texts sent to the stream before it was ended, in order. */
  function SentBefore(events: seq<Event>, n: nat): seq<string> {
    if events == [] then []
    else
      var front, last := events[..|events| - 1], events[|events| - 1];
      SentBefore(front, n)
      + if last.Made? && last.call.Send? && last.call.stream == n && !EndedBy(front, n) then [last.call.text] else []
  }

  /** The callbacks registered on the stream, in order. */
  function RegisteredOn(events: seq<Event>, n: nat): seq<Callback> {
    if events == [] then []
    else
      var last := events[|events| - 1];
      RegisteredOn(events[..|events| - 1], n)
      + if last.Made? && last.call.OnClose? && last.call.stream == n then [last.call.callback] else []
  }

  /** What the stream is, as what happened tells. */
  ghost predicate ToldOf(events: seq<Event>, stream: Stream, n: nat) {
    && (stream.ending <==> EndedBy(events, n))
    && stream.written == SentBefore(events, n) && stream.callbacks == RegisteredOn(events, n)
  }

  ghost predicate Told(s: State) {
    && (s.stopping <==> Stopped in s.events)
    && (forall e :: e in s.events && e.Made? ==> e.call.stream < |s.streams|)
    && (forall n :: 0 <= n < |s.streams| ==> ToldOf(s.events, s.streams[n], n))
  }

  lemma OneEventMore(events: seq<Event>, last: Event, n: nat)
    ensures EndedBy(events + [last], n) <==> EndedBy(events, n) || last == Stopped || last == Made(Close(n))
    ensures SentBefore(events + [last], n)
         == SentBefore(events, n)
         + (if last.Made? && last.call.Send? && last.call.stream == n && !EndedBy(events, n) then [last.call.text] else [])
    ensures RegisteredOn(events + [last], n)
         == RegisteredOn(events, n)
         + (if last.Made? && last.call.OnClose? && last.call.stream == n then [last.call.callback] else [])
  {
    assert (events + [last])[..|events|] == events;
  }

  lemma NothingTold(events: seq<Event>, n: nat)
    requires forall e :: e in events && e.Made? ==> e.call.stream < n
    requires Stopped !in events
    ensures ToldOf(events, OPENED, n)
    decreases |events|
  {
    if events != [] {
      NothingTold(events[..|events| - 1], n);
    }
  }

  /** One call, up to the loop that a close has still to run, leaves every stream as what happened tells. */
  lemma NotedTells(s: State, call: Call, t: State)
    requires Told(s) && call.stream < |s.streams|
    requires var n, m := call.stream, Noted(s, call);
             t == match call
                  case Send(_, text) =>
                    if s.streams[n].ending then m else With(m, n, s.streams[n].(written := s.streams[n].written + [text]))
                  case Close(_) => if s.streams[n].closed then With(m, n, Ended(s.streams[n])) else Shut(m, n)
                  case OnClose(_, callback) => With(m, n, Appended(s.streams[n], callback))
    ensures Told(t)
  {
    hide EndedBy;
    hide SentBefore;
    hide RegisteredOn;
    var n, e := call.stream, Made(call);
    forall k | 0 <= k < |t.streams|
      ensures ToldOf(t.events, t.streams[k], k)
    {
      OneEventMore(s.events, e, k);
      assert ToldOf(s.events, s.streams[k], k);
      var list, texts := s.streams[k].callbacks, s.streams[k].written;
      assert list + [] == list && texts + [] == texts;
    }
  }

  lemma {:induction false} PerformedTells(s: State, calls: Calls)
    requires Told(s)
    ensures Told(Performed(s, calls))
    decreases TotalWeight(s.streams) + Weight(calls), 2 + Length(calls)
  {
    hide Called;
    hide Told;
    if calls.Then? {
      CalledTells(s, calls.call);
      PerformedTells(Called(s, calls.call), calls.rest);
    }
  }

  lemma {:induction false} CalledTells(s: State, call: Call)
    requires Told(s)
    ensures Told(Called(s, call))
    decreases TotalWeight(s.streams) + CallWeight(call), 1
  {
    hide Looped;
    hide TotalWeight;
    hide Told;
    var n := call.stream;
    if n < |s.streams| {
      if call.Close? && !s.streams[n].closed {
        WeightAt(s.streams, n, Ended(s.streams[n]).(closed := true));
        NotedTells(s, call, Shut(Noted(s, call), n));
        LoopedTells(Shut(Noted(s, call), n), n);
      } else {
        NotedTells(s, call, Called(s, call));
      }
    }
  }

  lemma {:induction false} LoopedTells(s: State, n: nat)
    requires Told(s) && n < |s.streams|
    ensures Told(Looped(s, n))
    decreases TotalWeight(s.streams), 0
  {
    hide Performed;
    hide TotalWeight;
    hide ToldOf;
    hide Looped;
    var stream := s.streams[n];
    if |stream.ran| < |stream.callbacks| {
      WeightAt(s.streams, n, Started(stream));
      StartedWeight(stream);
      LoopedUnfolds(s, n);
      StartedTells(s, n);
      PerformedTells(Starts(s, n), stream.callbacks[|stream.ran|].calls);
      LoopedTells(Performed(Starts(s, n), stream.callbacks[|stream.ran|].calls), n);
    } else {
      LoopEnds(s, n);
    }
  }

  lemma StartedTells(s: State, n: nat)
    requires Told(s) && n < |s.streams| && |s.streams[n].ran| < |s.streams[n].callbacks|
    ensures Told(Starts(s, n))
  {
    hide EndedBy;
    hide SentBefore;
    hide RegisteredOn;
    forall k | 0 <= k < |s.streams|
      ensures ToldOf(s.events, Starts(s, n).streams[k], k)
    {
      assert ToldOf(s.events, s.streams[k], k);
    }
  }

  lemma NextTells(s: State, a: Action)
    requires Told(s) && Inv(s)
    ensures Told(Next(s, a))
  {
    hide Called;
    hide SentBefore;
    hide RegisteredOn;
    if a.Calls? {
      CalledTells(s, a.call);
    } else if a.Closing? {
      CalledTells(s, Close(a.stream));
    } else if a.PreClose? {
      forall k | 0 <= k < |s.streams|
        ensures ToldOf(Next(s, a).events, Next(s, a).streams[k], k)
      {
        OneEventMore(s.events, Stopped, k);
        assert ToldOf(s.events, s.streams[k], k);
        var list, texts := s.streams[k].callbacks, s.streams[k].written;
        assert list + [] == list && texts + [] == texts;
      }
    } else if !s.stopping {
      OpeningTells(s);
    }
  }

  lemma OpeningTells(s: State)
    requires Told(s) && !s.stopping
    ensures Told(Next(s, Open))
  {
    hide ToldOf;
    NothingTold(s.events, |s.streams|);
  }

  /**
   * Main result: in every run a stream has been written exactly the texts sent to it before it was closed or the hook ran,
   * in order, whoever sent them; its list is exactly the callbacks registered on it, in order; and it is ending exactly
   * once it was closed or the hook ran.
   */
  lemma {:induction false} SentIsWritten(actions: seq<Action>)
    ensures Told(Exec(START, actions))
    decreases |actions|
  {
    hide Told;
    hide Next;
    if actions != [] {
      var before := actions[..|actions| - 1];
      SentIsWritten(before);
      StartIsInv();
      ExecKeepsInv(START, before);
      NextTells(Exec(START, before), actions[|actions| - 1]);
    } else {
      StartTells();
    }
  }

  lemma StartTells()
    ensures Told(START)
  {}

  /** How often the call was made. */
  function CountMade(events: seq<Event>, call: Call): nat { multiset(events)[Made(call)] }

  /** From `s` to `t` the call is made as often as the callbacks started meanwhile make it, and `extra` times more. */
  ghost predicate Makes(s: State, t: State, call: Call, extra: nat) {
    && |s.streams| == |t.streams| && s.events <= t.events
    && CountMade(t.events, call) + CallsBy(s.log, call) == CountMade(s.events, call) + CallsBy(t.log, call) + extra
  }

  lemma MakesThen(s: State, u: State, t: State, call: Call, x: nat, y: nat)
    requires Makes(s, u, call, x) && Makes(u, t, call, y)
    ensures Makes(s, t, call, x + y)
  {
    hide CountMade;
    hide CallsBy;
  }

  lemma {:induction false} PerformedMakes(s: State, calls: Calls, call: Call)
    requires call.stream < |s.streams|
    ensures Makes(s, Performed(s, calls), call, CallsIn(calls, call))
    decreases TotalWeight(s.streams) + Weight(calls), 2 + Length(calls)
  {
    hide Called;
    hide Performed;
    hide CountMade;
    hide CallsBy;
    if calls.Done? {
      PerformedNothing(s, calls);
    } else {
      var u := Called(s, calls.call);
      CalledMakes(s, calls.call, call);
      PerformedMakes(u, calls.rest, call);
      PerformedUnfolds(s, calls);
      MakesThen(s, u, Performed(u, calls.rest), call, if calls.call == call then 1 else 0, CallsIn(calls.rest, call));
    }
  }

  lemma PerformedNothing(s: State, calls: Calls)
    requires calls.Done?
    ensures Performed(s, calls) == s
  {}

  lemma {:induction false} CalledMakes(s: State, made: Call, call: Call)
    requires call.stream < |s.streams|
    ensures Makes(s, Called(s, made), call, if made == call then 1 else 0)
    decreases TotalWeight(s.streams) + CallWeight(made), 1
  {
    hide Looped;
    hide TotalWeight;
    hide CallsBy;
    hide CountMade;
    OneMade(s.events, made, call);
    var n := made.stream;
    if n < |s.streams| && made.Close? && !s.streams[n].closed {
      WeightAt(s.streams, n, Ended(s.streams[n]).(closed := true));
      LoopedMakes(Shut(Noted(s, made), n), n, call);
    }
  }

  lemma OneMade(events: seq<Event>, made: Call, call: Call)
    ensures CountMade(events + [Made(made)], call) == CountMade(events, call) + if made == call then 1 else 0
  {}

  lemma {:induction false} LoopedMakes(s: State, n: nat, call: Call)
    requires call.stream < |s.streams| && n < |s.streams|
    ensures Makes(s, Looped(s, n), call, 0)
    decreases TotalWeight(s.streams), 0
  {
    hide Performed;
    hide TotalWeight;
    hide Looped;
    hide CountMade;
    hide CallsBy;
    var stream := s.streams[n];
    if |stream.ran| < |stream.callbacks| {
      var callback := stream.callbacks[|stream.ran|];
      WeightAt(s.streams, n, Started(stream));
      StartedWeight(stream);
      LoopedUnfolds(s, n);
      OneMoreMakes(s.log, callback, call);
      var u := Performed(Starts(s, n), callback.calls);
      PerformedMakes(Starts(s, n), callback.calls, call);
      LoopedMakes(u, n, call);
      MakesThen(s, u, Looped(u, n), call, 0, 0);
    } else {
      LoopEnds(s, n);
    }
  }

  lemma OneMoreMakes(list: seq<Callback>, last: Callback, call: Call)
    ensures CallsBy(list + [last], call) == CallsBy(list, call) + CallsIn(last.calls, call)
  {
    assert (list + [last])[..|list|] == list;
  }

  /** The call a turn makes itself. */
  predicate TurnMakes(s: State, a: Action, call: Call) {
    call.stream < |s.streams| && (a == Calls(call) || (a.Closing? && call == Close(a.stream)))
  }

  function MadeByTurns(s: State, actions: seq<Action>, call: Call): nat {
    if actions == [] then 0
    else
      MadeByTurns(s, actions[..|actions| - 1], call)
      + if TurnMakes(Exec(s, actions[..|actions| - 1]), actions[|actions| - 1], call) then 1 else 0
  }

  /** A turn puts down its own call, first, and with a close what the callbacks make; the hook puts itself down. */
  lemma TurnIsPutDown(s: State, a: Action, call: Call)
    ensures TurnMakes(s, a, call) ==> s.events + [Made(call)] <= Next(s, a).events
    ensures TurnMakes(s, a, call) && !call.Close? ==> Next(s, a).events == s.events + [Made(call)] && Next(s, a).log == s.log
    ensures a.PreClose? ==> Next(s, a).events == s.events + [Stopped] && Next(s, a).log == s.log
    ensures a.Open? ==> Next(s, a).events == s.events && Next(s, a).log == s.log
  {
    hide Looped;
    if TurnMakes(s, a, call) && call.Close? && !s.streams[call.stream].closed {
      LoopedMakes(Shut(Noted(s, call), call.stream), call.stream, call);
    }
  }

  lemma NextMakes(s: State, a: Action, call: Call)
    requires call.stream < |s.streams|
    ensures var t := Next(s, a);
            |s.streams| <= |t.streams|
            && CountMade(t.events, call) + CallsBy(s.log, call)
               == CountMade(s.events, call) + CallsBy(t.log, call) + if TurnMakes(s, a, call) then 1 else 0
  {
    hide Called;
    hide CallsBy;
    if a.Calls? {
      CalledMakes(s, a.call, call);
    } else if a.Closing? {
      CalledMakes(s, Close(a.stream), call);
    } else {
      TurnIsPutDown(s, a, call);
    }
  }

  /** Main result: in every run from one on, each call on a stream is made as often as turns make it and callbacks started do. */
  lemma {:induction false} CallsAreAccounted(s: State, actions: seq<Action>, call: Call)
    requires call.stream < |s.streams|
    ensures var t := Exec(s, actions);
            && |s.streams| <= |t.streams|
            && CountMade(t.events, call) + CallsBy(s.log, call)
               == CountMade(s.events, call) + CallsBy(t.log, call) + MadeByTurns(s, actions, call)
    decreases |actions|
  {
    hide Next;
    hide CountMade;
    hide CallsBy;
    if actions != [] {
      CallsAreAccounted(s, actions[..|actions| - 1], call);
      NextMakes(Exec(s, actions[..|actions| - 1]), actions[|actions| - 1], call);
    }
  }

  // -------------------------------------------------------------------------------------------------------------
  // The adapter
  // -------------------------------------------------------------------------------------------------------------

  /** The adapter's fields, with the flags and lists that each open route keeps. */
  class Adapter {
    var stopping: bool
    var open: set<nat>
    var streams: seq<Stream>
    /** History: every callback started. */
    ghost var log: seq<Callback>
    /** History: every call made, and the hook. */
    ghost var events: seq<Event>

    ghost function Value(): State
      reads this
    {
      State(stopping, open, streams, log, events)
    }

    ghost predicate Valid()
      reads this
    {
      Inv(Value())
    }

    constructor ()
      ensures Valid() && Value() == START
    {
      stopping, open, streams, log, events := false, {}, [], [], [];
    }

    /** A stream's request, its middlewares done: 503 once stopping. */
    method Open() returns (status: int)
      requires Valid()
      modifies this
      ensures Valid() && Value() == Next(old(Value()), Action.Open)
      ensures status == if stopping then 503 else 200
    {
      NextKeepsInv(Value(), Action.Open);
      if stopping {
        return 503;
      }
      open := open + {|streams|};
      streams := streams + [OPENED];
      status := 200;
    }

    method Send(stream: nat, text: string)
      requires Valid() && stream < |streams|
      modifies `streams, `events
      ensures Valid() && Value() == Called(old(Value()), Call.Send(stream, text))
    {
      CalledKeepsInv(Value(), Call.Send(stream, text));
      events := events + [Made(Call.Send(stream, text))];
      var s := streams[stream];
      if !s.ending {
        streams := streams[stream := s.(written := s.written + [text])];
      }
    }

    method OnClose(stream: nat, callback: Callback)
      requires Valid() && stream < |streams|
      modifies `streams, `events
      ensures Valid() && Value() == Called(old(Value()), Call.OnClose(stream, callback))
    {
      CalledKeepsInv(Value(), Call.OnClose(stream, callback));
      events := events + [Made(Call.OnClose(stream, callback))];
      streams := streams[stream := streams[stream].(callbacks := streams[stream].callbacks + [callback])];
    }

    method End(stream: nat)
      requires stream < |streams|
      modifies `streams
      ensures streams == old(streams)[stream := Ended(old(streams)[stream])]
    {
      streams := streams[stream := streams[stream].(ending := true)];
    }

    method Close(stream: nat)
      requires Valid() && stream < |streams|
      modifies this
      ensures Valid() && Value() == Called(old(Value()), Call.Close(stream))
      decreases TotalWeight(streams), 1
    {
      hide Called;
      hide Looped;
      hide TotalWeight;
      CalledKeepsInv(Value(), Call.Close(stream));
      CloseShuts(Value(), stream);
      events := events + [Made(Call.Close(stream))];
      ghost var shut := Shut(Value(), stream);
      if !streams[stream].closed {
        ShutKeepsInv(Value(), stream);
      }
      End(stream);
      if streams[stream].closed {
        return;
      }
      streams := streams[stream := streams[stream].(closed := true)];
      open := open - {stream};
      assert Value() == shut;
      RunCallbacks(stream);
    }

    /** The callbacks in order, those included that are added to the list meanwhile. */
    method RunCallbacks(stream: nat)
      requires Valid() && stream < |streams| && streams[stream].closed && streams[stream].ran == []
      modifies this
      ensures Valid() && Value() == Looped(old(Value()), stream)
      decreases TotalWeight(streams), 0
    {
      hide Looped;
      hide Performed;
      hide TotalWeight;
      var i := 0;
      while i < |streams[stream].callbacks|
        invariant Valid() && stream < |streams| && streams[stream].closed && i == |streams[stream].ran|
        invariant Looped(Value(), stream) == Looped(old(Value()), stream)
        invariant TotalWeight(streams) <= TotalWeight(old(streams))
        decreases TotalWeight(streams)
      {
        ghost var before := Value();
        var callback := streams[stream].callbacks[i];
        TurnKeeps(before, stream);
        streams := streams[stream := streams[stream].(ran := streams[stream].ran + [callback])];
        log := log + [callback];
        i := i + 1;
        Perform(callback.calls);
      }
      LoopEnds(Value(), stream);
    }

    /** A callback's calls, whatever streams they are on. */
    method Perform(calls: Calls)
      requires Valid()
      modifies this
      ensures Valid() && Value() == Performed(old(Value()), calls)
      decreases TotalWeight(streams) + Weight(calls), 1 + Length(calls)
    {
      hide Called;
      hide TotalWeight;
      var rest := calls;
      while rest.Then?
        invariant Valid() && Performed(Value(), rest) == Performed(old(Value()), calls)
        invariant TotalWeight(streams) + Weight(rest) <= TotalWeight(old(streams)) + Weight(calls)
        invariant Length(rest) <= Length(calls)
        decreases rest
      {
        PerformedUnfolds(Value(), rest);
        CalledOutside(Value(), rest.call);
        if rest.call.stream < |streams| {
          match rest.call {
            case Send(stream, text) => Send(stream, text);
            case Close(stream) => Close(stream);
            case OnClose(stream, callback) => OnClose(stream, callback);
          }
        }
        rest := rest.rest;
      }
    }

    /** The hook run before the server closes: every open stream is ended, its socket's end bounded. */
    method PreClose()
      requires Valid()
      modifies this
      ensures Valid() && Value() == Next(old(Value()), Action.PreClose)
    {
      NextKeepsInv(Value(), Action.PreClose);
      stopping := true;
      events := events + [Stopped];
      var rest := open;
      while rest != {}
        invariant rest <= open && stopping && open == old(open) && log == old(log) && |streams| == |old(streams)|
        invariant events == old(events) + [Stopped]
        invariant forall n :: 0 <= n < |streams| ==>
                    streams[n] == if n in open - rest then Ended(old(streams)[n]).(bounded := true) else old(streams)[n]
        decreases rest
      {
        var stream :| stream in rest;
        rest := rest - {stream};
        streams := streams[stream := streams[stream].(bounded := true)];
        End(stream);
      }
    }
  }

  /** A close is its loop from the stream as it is shut, or nothing but an end. */
  lemma CloseShuts(s: State, n: nat)
    requires n < |s.streams|
    ensures var m := Noted(s, Close(n));
            Called(s, Close(n)) == if s.streams[n].closed then With(m, n, Ended(s.streams[n])) else Looped(Shut(m, n), n)
    ensures TotalWeight(Shut(s, n).streams) == TotalWeight(s.streams)
  {
    hide Looped;
    hide TotalWeight;
    WeightAt(s.streams, n, Ended(s.streams[n]).(closed := true));
  }

  lemma ShutKeepsInv(s: State, n: nat)
    requires Inv(s) && n < |s.streams| && !s.streams[n].closed
    ensures Inv(Shut(s, n))
  {}

  lemma StartsKeepsInv(s: State, n: nat)
    requires Inv(s) && n < |s.streams| && s.streams[n].closed && |s.streams[n].ran| < |s.streams[n].callbacks|
    ensures Inv(Starts(s, n))
  {}

  /** Before a callback's calls and after them, the loop is in order. */
  lemma TurnKeeps(s: State, n: nat)
    requires Inv(s) && n < |s.streams| && s.streams[n].closed && |s.streams[n].ran| < |s.streams[n].callbacks|
    ensures var calls := s.streams[n].callbacks[|s.streams[n].ran|].calls;
            var u := Performed(Starts(s, n), calls);
            && Inv(Starts(s, n)) && TotalWeight(Starts(s, n).streams) + Weight(calls) < TotalWeight(s.streams)
            && Looped(s, n) == Looped(u, n) && TotalWeight(u.streams) < TotalWeight(s.streams)
            && n < |u.streams| && u.streams[n].closed && |u.streams[n].ran| == |s.streams[n].ran| + 1
  {
    hide Looped;
    hide Performed;
    hide Goes;
    hide TotalWeight;
    hide Weight;
    hide ListWeight;
    hide Waiting;
    StartsKeepsInv(s, n);
    WeightAt(s.streams, n, Started(s.streams[n]));
    StartedWeight(s.streams[n]);
    LoopedUnfolds(s, n);
    TurnGoes(s, n, n, s.streams[n].callbacks[|s.streams[n].ran|]);
  }

  lemma LoopEnds(s: State, n: nat)
    requires n < |s.streams| && |s.streams[n].ran| >= |s.streams[n].callbacks|
    ensures Looped(s, n) == s
  {}

  lemma CalledOutside(s: State, call: Call)
    ensures call.stream >= |s.streams| ==> Called(s, call) == s
  {}
}
