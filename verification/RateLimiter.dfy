/**
 * The fixed-window rate limiter of packages/http/src/rate-limit.ts: the class as it is written, and the value functions
 * its methods are proved against. The clock is a parameter, in milliseconds.
 */
module RateLimiter {
  import opened Arithmetic
  import opened Wrappers
  import PathPattern
  import Regex

  datatype Action = Block | Challenge

  /** `requests` and `windowMs` are the parsed rule's; the header is lower case. */
  datatype Rule = Rule(pattern: string, header: Option<string>, requests: nat, windowMs: nat, action: Action)

  datatype Bucket = Bucket(count: nat, resetAt: int)

  datatype Decision = Decision(allowed: bool, action: Action, retryAfter: Option<nat>)

  const PRUNE_THRESHOLD: nat := 1024

  /** The limiter's state. A limiter whose `pruneAt` is `None` never sweeps: the reference. */
  datatype Limits = Limits(buckets: map<string, Bucket>, pruneAt: Option<nat>)

  const FRESH := Limits(map[], Some(PRUNE_THRESHOLD))
  const NEVER_SWEPT := Limits(map[], None)

  predicate Applies(rule: Rule, path: string, headers: set<string>) {
    Regex.Accepts(PathPattern.CompilePathPattern(rule.pattern), path) && (rule.header.Some? ==> rule.header.value in headers)
  }

  /** The first rule that applies. */
  function RuleFor(rules: seq<Rule>, path: string, headers: set<string>): Option<Rule> {
    if rules == [] then None
    else if Applies(rules[0], path, headers) then Some(rules[0])
    else RuleFor(rules[1..], path, headers)
  }

  function BucketKey(rule: Rule, key: string): string { rule.pattern + "|" + key }

  function Max(x: int, y: int): int { if x <= y then y else x }

  /** Whole seconds until the bucket resets, at least one. */
  function RetryAfter(bucket: Bucket, now: int): nat { Max(1, (bucket.resetAt - now + 999) / 1000) }

  predicate IsLive(buckets: map<string, Bucket>, key: string, now: int) {
    key in buckets && buckets[key].resetAt > now
  }

  function Unexpired(buckets: map<string, Bucket>, now: int): map<string, Bucket> {
    map k | k in buckets && buckets[k].resetAt > now :: buckets[k]
  }

  predicate SweepIsDue(l: Limits) { l.pruneAt.Some? && |l.buckets| >= l.pruneAt.value }

  /** `#open`. */
  function Opened(l: Limits, key: string, now: int, windowMs: nat): Limits {
    var kept := if SweepIsDue(l) then Unexpired(l.buckets, now) else l.buckets;
    Limits(kept[key := Bucket(1, now + windowMs)],
           if SweepIsDue(l) then Some(Max(PRUNE_THRESHOLD, |kept| * 2)) else l.pruneAt)
  }

  /** One more under `key`, in a new bucket when it has no live one. */
  function Counted(l: Limits, key: string, now: int, windowMs: nat): (l': Limits)
    ensures key in l'.buckets
  {
    if IsLive(l.buckets, key, now) then l.(buckets := l.buckets[key := l.buckets[key].(count := l.buckets[key].count + 1)])
    else Opened(l, key, now, windowMs)
  }

  function Decide(l: Limits, rule: Rule, key: string, scale: nat, now: int): Decision {
    var bucket := Counted(l, BucketKey(rule, key), now, rule.windowMs).buckets[BucketKey(rule, key)];
    if IsLive(l.buckets, BucketKey(rule, key), now) && bucket.count > rule.requests * scale
    then Decision(false, rule.action, Some(RetryAfter(bucket, now)))
    else Decision(true, rule.action, None)
  }

  predicate IsFull(l: Limits, rule: Rule, key: string, now: int) {
    IsLive(l.buckets, BucketKey(rule, key), now) && l.buckets[BucketKey(rule, key)].count >= rule.requests
  }

  function DecideFull(l: Limits, rule: Rule, keys: seq<string>, now: int): Decision {
    if keys == [] then Decision(true, rule.action, None)
    else if IsFull(l, rule, keys[0], now) then
      Decision(false, rule.action, Some(RetryAfter(l.buckets[BucketKey(rule, keys[0])], now)))
    else DecideFull(l, rule, keys[1..], now)
  }

  function AllCounted(l: Limits, rule: Rule, keys: seq<string>, now: int): Limits
    decreases |keys|
  {
    if keys == [] then l
    else AllCounted(Counted(l, BucketKey(rule, keys[0]), now, rule.windowMs), rule, keys[1..], now)
  }

  function CountsAfter(l: Limits, rule: Rule, keys: seq<string>, now: int): (counts: seq<nat>)
    ensures |counts| == |keys|
    decreases |keys|
  {
    if keys == [] then []
    else
      var l' := Counted(l, BucketKey(rule, keys[0]), now, rule.windowMs);
      [l'.buckets[BucketKey(rule, keys[0])].count] + CountsAfter(l', rule, keys[1..], now)
  }

  function Cleared(l: Limits, rule: Rule, keys: seq<string>): Limits
    decreases |keys|
  {
    if keys == [] then l else Cleared(l.(buckets := l.buckets - {BucketKey(rule, keys[0])}), rule, keys[1..])
  }

  // -------------------------------------------------------------------------------------------------------------
  // The class
  // -------------------------------------------------------------------------------------------------------------

  class RateLimiter {
    const rules: seq<Rule>
    var buckets: map<string, Bucket>
    var pruneAt: nat
    /** History: the entries the sweeps have looked at, and the buckets openings. */
    ghost var visited: nat
    ghost var openings: nat

    ghost function State(): Limits
      reads this
    {
      Limits(buckets, Some(pruneAt))
    }

    /** The amortisation: what the sweeps cost is paid by the openings, with the potential left over. */
    ghost predicate Valid()
      reads this
    {
      |buckets| <= pruneAt && visited + Potential(State()) <= 2 * openings
    }

    constructor (rules: seq<Rule>)
      ensures Valid() && this.rules == rules && State() == FRESH && openings == 0 && visited == 0
    {
      this.rules := rules;
      buckets := map[];
      pruneAt := PRUNE_THRESHOLD;
      visited, openings := 0, 0;
    }

    /** Removes the expired entries, one look at each. */
    method Sweep(now: int)
      modifies this
      ensures buckets == Unexpired(old(buckets), now) && pruneAt == Max(1024, |buckets| * 2)
      ensures visited == old(visited) + |old(buckets)| && openings == old(openings)
    {
      var keys := buckets.Keys;
      while keys != {}
        invariant keys <= old(buckets).Keys
        invariant forall k :: k in buckets <==> k in old(buckets) && (k in keys || old(buckets)[k].resetAt > now)
        invariant forall k :: k in buckets ==> buckets[k] == old(buckets)[k]
        invariant visited + |keys| == old(visited) + |old(buckets)| && openings == old(openings)
      {
        var k :| k in keys;
        if buckets[k].resetAt <= now {
          buckets := buckets - {k};
        }
        keys := keys - {k};
        visited := visited + 1;
      }
      pruneAt := Max(PRUNE_THRESHOLD, |buckets| * 2);
    }

    method Open(key: string, now: int, windowMs: nat)
      requires Valid()
      modifies this
      ensures Valid() && State() == Opened(old(State()), key, now, windowMs)
      ensures openings == old(openings) + 1 && visited == old(visited) + SweepCost(old(State()))
    {
      OpeningIsPaidFor(State(), key, now, windowMs);
      if |buckets| >= pruneAt {
        Sweep(now);
      }
      buckets := buckets[key := Bucket(1, now + windowMs)];
      openings := openings + 1;
    }

    /** One more request of `key`: refused when that is over `scale` allowances of the rule; none when no rule applies. */
    method Check(key: string, path: string, headers: set<string>, scale: nat, now: int) returns (decision: Option<Decision>)
      requires Valid()
      modifies this
      ensures Valid()
      ensures (State(), decision) == var r := Applied(rules, old(State()), Op.Check(key, path, headers, scale), now);
                                     (r.0, r.1.decision)
    {
      var rule := RuleFor(rules, path, headers);
      if rule.None? {
        return None;
      }
      var bucketKey := BucketKey(rule.value, key);
      if bucketKey !in buckets || buckets[bucketKey].resetAt <= now {
        Open(bucketKey, now, rule.value.windowMs);
        return Some(Decision(true, rule.value.action, None));
      }
      CountingIsFree(State(), bucketKey, now, rule.value.windowMs);
      buckets := buckets[bucketKey := buckets[bucketKey].(count := buckets[bucketKey].count + 1)];
      var bucket := buckets[bucketKey];
      if bucket.count > rule.value.requests * scale {
        return Some(Decision(false, rule.value.action, Some(RetryAfter(bucket, now))));
      }
      decision := Some(Decision(true, rule.value.action, None));
    }

    /** The answer a login gets: refused when one of `keys` has used its allowance up; nothing changes. */
    method Full(path: string, keys: seq<string>, now: int) returns (decision: Option<Decision>)
      ensures decision == Applied(rules, State(), Op.Full(path, keys), now).1.decision
    {
      var rule := RuleFor(rules, path, {});
      if rule.None? {
        return None;
      }
      for i := 0 to |keys|
        invariant DecideFull(State(), rule.value, keys, now) == DecideFull(State(), rule.value, keys[i..], now)
      {
        var bucketKey := BucketKey(rule.value, keys[i]);
        if bucketKey in buckets && buckets[bucketKey].resetAt > now && buckets[bucketKey].count >= rule.value.requests {
          return Some(Decision(false, rule.value.action, Some(RetryAfter(buckets[bucketKey], now))));
        }
      }
      decision := Some(Decision(true, rule.value.action, None));
    }

    /** One more under one key: the count after it. */
    method HitKey(bucketKey: string, now: int, windowMs: nat) returns (count: nat)
      requires Valid()
      modifies this
      ensures Valid() && State() == Counted(old(State()), bucketKey, now, windowMs)
      ensures count == State().buckets[bucketKey].count
    {
      if bucketKey !in buckets || buckets[bucketKey].resetAt <= now {
        Open(bucketKey, now, windowMs);
        return 1;
      }
      CountingIsFree(State(), bucketKey, now, windowMs);
      buckets := buckets[bucketKey := buckets[bucketKey].(count := buckets[bucketKey].count + 1)];
      count := buckets[bucketKey].count;
    }

    /** Counts one under each of `keys`; the counts after it, in their order. */
    method Hit(path: string, keys: seq<string>, now: int) returns (counts: seq<nat>)
      requires Valid()
      modifies this
      ensures Valid()
      ensures (State(), counts) == var r := Applied(rules, old(State()), Op.Hit(path, keys), now); (r.0, r.1.counts)
    {
      hide Counted;
      hide RuleFor;
      var rule := RuleFor(rules, path, {});
      counts := [];
      if rule.None? {
        return;
      }
      assert keys[0..] == keys;
      for i := 0 to |keys|
        invariant Valid()
        invariant AllCounted(old(State()), rule.value, keys, now) == AllCounted(State(), rule.value, keys[i..], now)
        invariant CountsAfter(old(State()), rule.value, keys, now)
                  == counts + CountsAfter(State(), rule.value, keys[i..], now)
      {
        assert keys[i..][1..] == keys[i + 1..];
        var count := HitKey(BucketKey(rule.value, keys[i]), now, rule.value.windowMs);
        counts := counts + [count];
      }
      assert AllCounted(State(), rule.value, keys[|keys|..], now) == State();
      assert counts + CountsAfter(State(), rule.value, keys[|keys|..], now) == counts;
    }

    method Clear(path: string, keys: seq<string>)
      requires Valid()
      modifies this
      ensures Valid()
      ensures forall now :: State() == Applied(rules, old(State()), Op.Clear(path, keys), now).0
    {
      var rule := RuleFor(rules, path, {});
      if rule.None? {
        return;
      }
      for i := 0 to |keys|
        invariant Valid()
        invariant Cleared(old(State()), rule.value, keys) == Cleared(State(), rule.value, keys[i..])
      {
        assert keys[i..][1..] == keys[i + 1..];
        FewerKeys(buckets, {BucketKey(rule.value, keys[i])});
        buckets := buckets - {BucketKey(rule.value, keys[i])};
      }
    }

    method Reset()
      requires Valid()
      modifies this
      ensures Valid() && State() == FRESH
    {
      buckets := map[];
      pruneAt := PRUNE_THRESHOLD;
    }
  }

  // -------------------------------------------------------------------------------------------------------------
  // Any sequence of operations
  // -------------------------------------------------------------------------------------------------------------

  datatype Op =
    | Check(key: string, path: string, headers: set<string>, scale: nat)
    | Full(path: string, keys: seq<string>)
    | Hit(path: string, keys: seq<string>)
    | Clear(path: string, keys: seq<string>)
    | Reset

  /** What a caller gets back: the decision of `check` and `full`, the counts of `hit`. */
  datatype Answer = Answer(decision: Option<Decision>, counts: seq<nat>)

  const NO_ANSWER := Answer(None, [])

  function OpRule(rules: seq<Rule>, op: Op): Option<Rule> {
    match op
    case Check(_, path, headers, _) => RuleFor(rules, path, headers)
    case Reset => None
    case _ => RuleFor(rules, op.path, {})
  }

  function Applied(rules: seq<Rule>, l: Limits, op: Op, now: int): (Limits, Answer) {
    var rule := OpRule(rules, op);
    if op == Reset then (if l.pruneAt.None? then NEVER_SWEPT else FRESH, NO_ANSWER)
    else if rule.None? then (l, NO_ANSWER)
    else
      match op
      case Check(key, _, _, scale) =>
        (Counted(l, BucketKey(rule.value, key), now, rule.value.windowMs),
         Answer(Some(Decide(l, rule.value, key, scale, now)), []))
      case Full(_, keys) => (l, Answer(Some(DecideFull(l, rule.value, keys, now)), []))
      case Hit(_, keys) => (AllCounted(l, rule.value, keys, now), Answer(None, CountsAfter(l, rule.value, keys, now)))
      case Clear(_, keys) => (Cleared(l, rule.value, keys), NO_ANSWER)
      case Reset => (l, NO_ANSWER)
  }

  datatype Event = Event(op: Op, now: int)

  predicate NonDecreasing(trace: seq<Event>) {
    forall i, j :: 0 <= i < j < |trace| ==> trace[i].now <= trace[j].now
  }

  function After(rules: seq<Rule>, l: Limits, trace: seq<Event>): Limits
    decreases |trace|
  {
    if trace == [] then l else After(rules, Applied(rules, l, trace[0].op, trace[0].now).0, trace[1..])
  }

  function Answers(rules: seq<Rule>, l: Limits, trace: seq<Event>): seq<Answer>
    decreases |trace|
  {
    if trace == [] then []
    else
      var r := Applied(rules, l, trace[0].op, trace[0].now);
      [r.1] + Answers(rules, r.0, trace[1..])
  }

  // -------------------------------------------------------------------------------------------------------------
  // The sweep is amortised constant
  // -------------------------------------------------------------------------------------------------------------

  function Potential(l: Limits): nat { if l.pruneAt.None? then 0 else Max(0, 2 * |l.buckets| - l.pruneAt.value) }

  /** The entries a sweep of this opening looks at. */
  function SweepCost(l: Limits): nat { if SweepIsDue(l) then |l.buckets| else 0 }

  lemma FewerKeys<V>(m: map<string, V>, gone: set<string>)
    ensures |m - gone| <= |m|
  {
    assert (m - gone).Keys == m.Keys - gone;
    SubsetIsSmaller(m.Keys - gone, m.Keys);
  }

  lemma OneMoreKey<V>(m: map<string, V>, key: string, value: V)
    ensures |m[key := value]| <= |m| + 1
    ensures key in m ==> |m[key := value]| == |m|
  {
    assert m[key := value].Keys == m.Keys + {key};
    if key in m {
      assert m.Keys + {key} == m.Keys;
    }
  }

  /** Opening a bucket, the sweep it may set off included, costs at most two, the potential paying the rest. */
  lemma OpeningIsPaidFor(l: Limits, key: string, now: int, windowMs: nat)
    requires l.pruneAt.Some? && |l.buckets| <= l.pruneAt.value
    ensures var l' := Opened(l, key, now, windowMs);
            && l'.pruneAt.Some? && |l'.buckets| <= l'.pruneAt.value
            && SweepCost(l) + Potential(l') <= Potential(l) + 2
  {
    var kept := if SweepIsDue(l) then Unexpired(l.buckets, now) else l.buckets;
    OneMoreKey(kept, key, Bucket(1, now + windowMs));
    if SweepIsDue(l) {
      SubsetIsSmaller(kept.Keys, l.buckets.Keys);
    }
  }

  lemma CountingIsFree(l: Limits, key: string, now: int, windowMs: nat)
    requires IsLive(l.buckets, key, now)
    ensures var l' := Counted(l, key, now, windowMs);
            |l'.buckets| == |l.buckets| && l'.pruneAt == l.pruneAt && Potential(l') == Potential(l)
  {
    OneMoreKey(l.buckets, key, l.buckets[key].(count := l.buckets[key].count + 1));
  }

  /** The entries all the sweeps of a trace look at, and the buckets it opens. */
  function Visits(rules: seq<Rule>, l: Limits, trace: seq<Event>): nat
    decreases |trace|
  {
    if trace == [] then 0
    else VisitsOf(rules, l, trace[0]) + Visits(rules, Applied(rules, l, trace[0].op, trace[0].now).0, trace[1..])
  }

  function Openings(rules: seq<Rule>, l: Limits, trace: seq<Event>): nat
    decreases |trace|
  {
    if trace == [] then 0
    else OpeningsOf(rules, l, trace[0]) + Openings(rules, Applied(rules, l, trace[0].op, trace[0].now).0, trace[1..])
  }

  function KeyVisits(l: Limits, rule: Rule, keys: seq<string>, now: int): nat
    decreases |keys|
  {
    if keys == [] then 0
    else
      (if IsLive(l.buckets, BucketKey(rule, keys[0]), now) then 0 else SweepCost(l))
      + KeyVisits(Counted(l, BucketKey(rule, keys[0]), now, rule.windowMs), rule, keys[1..], now)
  }

  function KeyOpenings(l: Limits, rule: Rule, keys: seq<string>, now: int): nat
    decreases |keys|
  {
    if keys == [] then 0
    else
      (if IsLive(l.buckets, BucketKey(rule, keys[0]), now) then 0 else 1)
      + KeyOpenings(Counted(l, BucketKey(rule, keys[0]), now, rule.windowMs), rule, keys[1..], now)
  }

  /** The keys an operation counts under. */
  function CountedKeys(op: Op): seq<string> {
    match op
    case Check(key, _, _, _) => [key]
    case Hit(_, keys) => keys
    case _ => []
  }

  function VisitsOf(rules: seq<Rule>, l: Limits, e: Event): nat {
    var rule := OpRule(rules, e.op);
    if rule.None? then 0 else KeyVisits(l, rule.value, CountedKeys(e.op), e.now)
  }

  function OpeningsOf(rules: seq<Rule>, l: Limits, e: Event): nat {
    var rule := OpRule(rules, e.op);
    if rule.None? then 0 else KeyOpenings(l, rule.value, CountedKeys(e.op), e.now)
  }

  /** `size` is at most `pruneAt`. */
  predicate Bounded(l: Limits) { l.pruneAt.Some? && |l.buckets| <= l.pruneAt.value }

  lemma {:induction false} KeysArePaidFor(l: Limits, rule: Rule, keys: seq<string>, now: int)
    requires Bounded(l)
    ensures var l' := AllCounted(l, rule, keys, now);
            Bounded(l') && KeyVisits(l, rule, keys, now) + Potential(l') <= Potential(l) + 2 * KeyOpenings(l, rule, keys, now)
    decreases |keys|
  {
    if keys != [] {
      var bucketKey := BucketKey(rule, keys[0]);
      if IsLive(l.buckets, bucketKey, now) {
        CountingIsFree(l, bucketKey, now, rule.windowMs);
      } else {
        OpeningIsPaidFor(l, bucketKey, now, rule.windowMs);
      }
      KeysArePaidFor(Counted(l, bucketKey, now, rule.windowMs), rule, keys[1..], now);
    }
  }

  lemma {:induction false} ClearingIsFree(l: Limits, rule: Rule, keys: seq<string>)
    requires Bounded(l)
    ensures Bounded(Cleared(l, rule, keys)) && Potential(Cleared(l, rule, keys)) <= Potential(l)
    decreases |keys|
  {
    if keys != [] {
      FewerKeys(l.buckets, {BucketKey(rule, keys[0])});
      ClearingIsFree(l.(buckets := l.buckets - {BucketKey(rule, keys[0])}), rule, keys[1..]);
    }
  }

  /**
   * Main result: over any sequence of operations, `size` stays at most `pruneAt` and the entries the sweeps look at are
   * at most twice the buckets opened.
   */
  lemma {:induction false} SweepIsAmortised(rules: seq<Rule>, l: Limits, trace: seq<Event>)
    requires Bounded(l)
    ensures Bounded(After(rules, l, trace))
    ensures Visits(rules, l, trace) + Potential(After(rules, l, trace)) <= Potential(l) + 2 * Openings(rules, l, trace)
    decreases |trace|
  {
    if trace != [] {
      var e := trace[0];
      var l' := Applied(rules, l, e.op, e.now).0;
      OperationIsPaidFor(rules, l, e);
      SweepIsAmortised(rules, l', trace[1..]);
    }
  }

  lemma OperationIsPaidFor(rules: seq<Rule>, l: Limits, e: Event)
    requires Bounded(l)
    ensures var l' := Applied(rules, l, e.op, e.now).0;
            Bounded(l') && VisitsOf(rules, l, e) + Potential(l') <= Potential(l) + 2 * OpeningsOf(rules, l, e)
  {
    var rule := OpRule(rules, e.op);
    if rule.Some? {
      KeysArePaidFor(l, rule.value, CountedKeys(e.op), e.now);
      if e.op.Clear? {
        ClearingIsFree(l, rule.value, e.op.keys);
      } else if e.op.Check? {
        var l' := Counted(l, BucketKey(rule.value, e.op.key), e.now, rule.value.windowMs);
        assert AllCounted(l', rule.value, [e.op.key][1..], e.now) == l';
      }
    }
  }

  // -------------------------------------------------------------------------------------------------------------
  // The sweep never shows
  // -------------------------------------------------------------------------------------------------------------

  /** The two limiters have the same live buckets from `now` on. */
  ghost predicate SameLive(l: Limits, u: Limits, now: int) {
    forall k ::
      && (IsLive(l.buckets, k, now) <==> IsLive(u.buckets, k, now))
      && (IsLive(l.buckets, k, now) ==> l.buckets[k] == u.buckets[k])
  }

  lemma SameLiveLater(l: Limits, u: Limits, now: int, later: int)
    requires SameLive(l, u, now) && now <= later
    ensures SameLive(l, u, later)
  {
    forall k
      ensures (IsLive(l.buckets, k, later) <==> IsLive(u.buckets, k, later))
              && (IsLive(l.buckets, k, later) ==> l.buckets[k] == u.buckets[k])
    {
      assert IsLive(l.buckets, k, now) <==> IsLive(u.buckets, k, now);
    }
  }

  lemma CountedAlike(l: Limits, u: Limits, key: string, now: int, windowMs: nat)
    requires SameLive(l, u, now)
    ensures SameLive(Counted(l, key, now, windowMs), Counted(u, key, now, windowMs), now)
    ensures Counted(l, key, now, windowMs).buckets[key] == Counted(u, key, now, windowMs).buckets[key]
  {
    var l', u' := Counted(l, key, now, windowMs), Counted(u, key, now, windowMs);
    assert IsLive(l.buckets, key, now) <==> IsLive(u.buckets, key, now);
    forall k
      ensures (IsLive(l'.buckets, k, now) <==> IsLive(u'.buckets, k, now))
              && (IsLive(l'.buckets, k, now) ==> l'.buckets[k] == u'.buckets[k])
    {
      assert IsLive(l.buckets, k, now) <==> IsLive(u.buckets, k, now);
    }
  }

  lemma {:induction false} AllCountedAlike(l: Limits, u: Limits, rule: Rule, keys: seq<string>, now: int)
    requires SameLive(l, u, now)
    ensures SameLive(AllCounted(l, rule, keys, now), AllCounted(u, rule, keys, now), now)
    ensures CountsAfter(l, rule, keys, now) == CountsAfter(u, rule, keys, now)
    decreases |keys|
  {
    if keys != [] {
      var key := BucketKey(rule, keys[0]);
      CountedAlike(l, u, key, now, rule.windowMs);
      AllCountedAlike(Counted(l, key, now, rule.windowMs), Counted(u, key, now, rule.windowMs), rule, keys[1..], now);
    }
  }

  lemma {:induction false} ClearedAlike(l: Limits, u: Limits, rule: Rule, keys: seq<string>, now: int)
    requires SameLive(l, u, now)
    ensures SameLive(Cleared(l, rule, keys), Cleared(u, rule, keys), now)
    decreases |keys|
  {
    if keys != [] {
      var gone := {BucketKey(rule, keys[0])};
      var l', u' := l.(buckets := l.buckets - gone), u.(buckets := u.buckets - gone);
      forall k
        ensures (IsLive(l'.buckets, k, now) <==> IsLive(u'.buckets, k, now))
                && (IsLive(l'.buckets, k, now) ==> l'.buckets[k] == u'.buckets[k])
      {
        assert IsLive(l.buckets, k, now) <==> IsLive(u.buckets, k, now);
      }
      ClearedAlike(l', u', rule, keys[1..], now);
    }
  }

  lemma {:induction false} DecidedFullAlike(l: Limits, u: Limits, rule: Rule, keys: seq<string>, now: int)
    requires SameLive(l, u, now)
    ensures DecideFull(l, rule, keys, now) == DecideFull(u, rule, keys, now)
    decreases |keys|
  {
    if keys != [] {
      assert IsLive(l.buckets, BucketKey(rule, keys[0]), now) <==> IsLive(u.buckets, BucketKey(rule, keys[0]), now);
      DecidedFullAlike(l, u, rule, keys[1..], now);
    }
  }

  lemma AppliedAlike(rules: seq<Rule>, l: Limits, u: Limits, op: Op, now: int)
    requires SameLive(l, u, now)
    ensures Applied(rules, l, op, now).1 == Applied(rules, u, op, now).1
    ensures SameLive(Applied(rules, l, op, now).0, Applied(rules, u, op, now).0, now)
  {
    var rule := OpRule(rules, op);
    if rule.Some? {
      match op
      case Check(key, _, _, _) =>
        assert IsLive(l.buckets, BucketKey(rule.value, key), now) <==> IsLive(u.buckets, BucketKey(rule.value, key), now);
        CountedAlike(l, u, BucketKey(rule.value, key), now, rule.value.windowMs);
      case Full(_, keys) => DecidedFullAlike(l, u, rule.value, keys, now);
      case Hit(_, keys) => AllCountedAlike(l, u, rule.value, keys, now);
      case Clear(_, keys) => ClearedAlike(l, u, rule.value, keys, now);
      case Reset =>
    }
  }

  /**
   * Main result: on every trace of a clock that does not go back, two limiters with the same live buckets give the same
   * answers, whatever expired entries they hold and whenever they sweep.
   */
  lemma {:induction false} AnswersDependOnLiveOnly(rules: seq<Rule>, l: Limits, u: Limits, trace: seq<Event>)
    requires NonDecreasing(trace) && (trace != [] ==> SameLive(l, u, trace[0].now))
    ensures Answers(rules, l, trace) == Answers(rules, u, trace)
    decreases |trace|
  {
    if trace != [] {
      var e := trace[0];
      AppliedAlike(rules, l, u, e.op, e.now);
      var l', u' := Applied(rules, l, e.op, e.now).0, Applied(rules, u, e.op, e.now).0;
      if |trace| > 1 {
        SameLiveLater(l', u', e.now, trace[1].now);
      }
      AnswersDependOnLiveOnly(rules, l', u', trace[1..]);
    }
  }

  /** In particular, the limiter answers as one that never sweeps. */
  lemma SweepNeverShows(rules: seq<Rule>, trace: seq<Event>)
    requires NonDecreasing(trace)
    ensures Answers(rules, FRESH, trace) == Answers(rules, NEVER_SWEPT, trace)
  {
    AnswersDependOnLiveOnly(rules, FRESH, NEVER_SWEPT, trace);
  }

  // -------------------------------------------------------------------------------------------------------------
  // Which rule, and what each operation does to one bucket
  // -------------------------------------------------------------------------------------------------------------

  /** The path is one the pattern means, and a header the rule names is there. */
  ghost predicate Concerns(rule: Rule, path: string, headers: set<string>) {
    PathPattern.PatternAccepts(rule.pattern, path) && (rule.header == None || rule.header.value in headers)
  }

  /** Main result: the rule of a request is the first that concerns it, for patterns that never read as the placeholder. */
  lemma {:induction false} RuleIsTheFirst(rules: seq<Rule>, path: string, headers: set<string>)
    requires forall r :: r in rules ==> !PathPattern.HasPlaceholder(r.pattern)
    ensures RuleFor(rules, path, headers) == None <==> forall i :: 0 <= i < |rules| ==> !Concerns(rules[i], path, headers)
    ensures RuleFor(rules, path, headers).Some? ==>
              exists i :: 0 <= i < |rules| && rules[i] == RuleFor(rules, path, headers).value
                          && Concerns(rules[i], path, headers) && forall j :: 0 <= j < i ==> !Concerns(rules[j], path, headers)
    decreases |rules|
  {
    hide Regex.Accepts;
    hide PathPattern.PatternAccepts;
    if rules != [] {
      assert rules[0] in rules;
      PathPattern.PathPatternAccepts(rules[0].pattern, path);
      RuleIsTheFirst(rules[1..], path, headers);
      assert forall i :: 0 < i < |rules| ==> rules[i] == rules[1..][i - 1];
      if !Applies(rules[0], path, headers) && RuleFor(rules[1..], path, headers).Some? {
        var i :| 0 <= i < |rules[1..]| && rules[1..][i] == RuleFor(rules[1..], path, headers).value
                 && Concerns(rules[1..][i], path, headers) && forall j :: 0 <= j < i ==> !Concerns(rules[1..][j], path, headers);
        assert rules[i + 1] == rules[1..][i];
        forall j | 0 <= j < i + 1
          ensures !Concerns(rules[j], path, headers)
        {
          assert j > 0 ==> rules[j] == rules[1..][j - 1];
        }
      }
    }
  }

  /** How many the live bucket of the key holds; none without one. */
  function Held(l: Limits, rule: Rule, key: string, now: int): nat {
    var k := BucketKey(rule, key);
    if k in l.buckets && l.buckets[k].resetAt > now then l.buckets[k].count else 0
  }

  /** Where the key's live bucket ends; none without one. */
  function EndsAt(l: Limits, rule: Rule, key: string, now: int): Option<int> {
    var k := BucketKey(rule, key);
    if k in l.buckets && l.buckets[k].resetAt > now then Some(l.buckets[k].resetAt) else None
  }

  lemma KeysOfOneRule(rule: Rule, j: string, k: string)
    ensures BucketKey(rule, j) == BucketKey(rule, k) <==> j == k
  {
    assert BucketKey(rule, j)[|rule.pattern| + 1..] == j && BucketKey(rule, k)[|rule.pattern| + 1..] == k;
  }

  /** Counting one under `key` adds one to it, in a bucket that ends where it did or a window from now, and to no other. */
  lemma CountedOne(l: Limits, rule: Rule, key: string, other: string, now: int)
    requires rule.windowMs > 0
    ensures var l' := Counted(l, BucketKey(rule, key), now, rule.windowMs);
            && Held(l', rule, other, now) == Held(l, rule, other, now) + (if other == key then 1 else 0)
            && (other != key ==> EndsAt(l', rule, other, now) == EndsAt(l, rule, other, now))
            && EndsAt(l', rule, key, now)
               == if EndsAt(l, rule, key, now).Some? then EndsAt(l, rule, key, now) else Some(now + rule.windowMs)
  {
    KeysOfOneRule(rule, key, other);
  }

  function Occurrences(keys: seq<string>, key: string): nat { multiset(keys)[key] }

  /** Main result: `hit` adds to each key as often as it is named, and answers each count as it stands after its turn. */
  lemma {:induction false} HitCountsEach(l: Limits, rule: Rule, keys: seq<string>, key: string, now: int)
    requires rule.windowMs > 0
    ensures Held(AllCounted(l, rule, keys, now), rule, key, now) == Held(l, rule, key, now) + Occurrences(keys, key)
    ensures forall i :: 0 <= i < |keys| ==>
              CountsAfter(l, rule, keys, now)[i] == Held(l, rule, keys[i], now) + Occurrences(keys[..i + 1], keys[i])
    decreases |keys|
  {
    hide Counted;
    if keys != [] {
      var l' := Counted(l, BucketKey(rule, keys[0]), now, rule.windowMs);
      assert keys == [keys[0]] + keys[1..];
      CountedOne(l, rule, keys[0], key, now);
      FirstCount(l, rule, keys[0], now);
      HitCountsEach(l', rule, keys[1..], key, now);
      forall i | 0 < i < |keys|
        ensures CountsAfter(l, rule, keys, now)[i] == Held(l, rule, keys[i], now) + Occurrences(keys[..i + 1], keys[i])
      {
        CountedOne(l, rule, keys[0], keys[i], now);
        assert keys[..i + 1] == [keys[0]] + keys[1..][..i];
      }
      assert keys[..1] == [keys[0]];
    }
  }

  lemma FirstCount(l: Limits, rule: Rule, key: string, now: int)
    requires rule.windowMs > 0
    ensures Counted(l, BucketKey(rule, key), now, rule.windowMs).buckets[BucketKey(rule, key)].count == Held(l, rule, key, now) + 1
  {}

  /** Main result: `clear` takes away the buckets of the keys named, whole, and leaves every other bucket as it is. */
  lemma {:induction false} ClearTakesExactly(l: Limits, rule: Rule, keys: seq<string>, bucketKey: string)
    ensures var l' := Cleared(l, rule, keys);
            && l'.pruneAt == l.pruneAt
            && (bucketKey in l'.buckets <==> bucketKey in l.buckets && forall k :: k in keys ==> BucketKey(rule, k) != bucketKey)
            && (bucketKey in l'.buckets ==> l'.buckets[bucketKey] == l.buckets[bucketKey])
    decreases |keys|
  {
    if keys != [] {
      assert keys == [keys[0]] + keys[1..];
      ClearTakesExactly(l.(buckets := l.buckets - {BucketKey(rule, keys[0])}), rule, keys[1..], bucketKey);
    }
  }

  /**
   * Main result: when `check` admits: at the start of a window always, and after it while the count with this request is
   * within `scale` allowances; a refusal is the rule's action with a wait, an admission has none.
   */
  lemma CheckAdmitsExactly(l: Limits, rule: Rule, key: string, scale: nat, now: int)
    ensures var d := Decide(l, rule, key, scale, now);
            && (d.allowed <==> EndsAt(l, rule, key, now).None? || Held(l, rule, key, now) + 1 <= rule.requests * scale)
            && d.action == rule.action && (d.retryAfter.Some? <==> !d.allowed)
  {}

  /** The key has a live bucket, which holds the rule's count. */
  predicate UsedUp(l: Limits, rule: Rule, key: string, now: int) {
    EndsAt(l, rule, key, now).Some? && Held(l, rule, key, now) >= rule.requests
  }

  /** And when `full` does: while no key has used its count up; else the wait is that of the first that has. */
  lemma {:induction false} FullAdmitsExactly(l: Limits, rule: Rule, keys: seq<string>, now: int)
    ensures var d := DecideFull(l, rule, keys, now);
            && (d.allowed <==> forall k :: k in keys ==> !UsedUp(l, rule, k, now))
            && d.action == rule.action && (d.retryAfter.Some? <==> !d.allowed)
            && (!d.allowed ==> exists i :: 0 <= i < |keys| && UsedUp(l, rule, keys[i], now)
                                 && (forall j :: 0 <= j < i ==> !UsedUp(l, rule, keys[j], now))
                                 && d.retryAfter == Some(RetryAfter(l.buckets[BucketKey(rule, keys[i])], now)))
    decreases |keys|
  {
    if keys != [] {
      var rest := keys[1..];
      FullAdmitsExactly(l, rule, rest, now);
      assert forall k :: k in keys <==> k == keys[0] || k in rest;
      assert IsFull(l, rule, keys[0], now) <==> UsedUp(l, rule, keys[0], now);
      hide UsedUp;
      hide IsFull;
      if !IsFull(l, rule, keys[0], now) && !DecideFull(l, rule, rest, now).allowed {
        var i :| 0 <= i < |rest| && UsedUp(l, rule, rest[i], now) && (forall j :: 0 <= j < i ==> !UsedUp(l, rule, rest[j], now))
                 && DecideFull(l, rule, rest, now).retryAfter == Some(RetryAfter(l.buckets[BucketKey(rule, rest[i])], now));
        assert keys[i + 1] == rest[i] && forall j :: 0 < j < i + 1 ==> keys[j] == rest[j - 1];
      }
    }
  }

  // -------------------------------------------------------------------------------------------------------------
  // What a window admits
  // -------------------------------------------------------------------------------------------------------------

  /** The event counts under, or takes away, the bucket `bucketKey`. */
  predicate Touches(rules: seq<Rule>, e: Event, bucketKey: string) {
    var rule := OpRule(rules, e.op);
    match e.op
    case Check(key, _, _, _) => rule.Some? && BucketKey(rule.value, key) == bucketKey
    case Full(_, _) => false
    case Hit(_, keys) => rule.Some? && exists k :: k in keys && BucketKey(rule.value, k) == bucketKey
    case Clear(_, keys) => rule.Some? && exists k :: k in keys && BucketKey(rule.value, k) == bucketKey
    case Reset => true
  }

  /** What touches the bucket is `check` under this rule and scale, and nothing else. */
  predicate OnlyChecks(rules: seq<Rule>, trace: seq<Event>, rule: Rule, key: string, scale: nat) {
    forall i :: 0 <= i < |trace| && Touches(rules, trace[i], BucketKey(rule, key)) ==>
      trace[i].op.Check? && OpRule(rules, trace[i].op) == Some(rule) && trace[i].op.scale == scale
  }

  /** The requests of the trace counted under the bucket. */
  function Asked(rules: seq<Rule>, trace: seq<Event>, bucketKey: string): nat
    decreases |trace|
  {
    if trace == [] then 0
    else (if Touches(rules, trace[0], bucketKey) then 1 else 0) + Asked(rules, trace[1..], bucketKey)
  }

  /** Those of them that were admitted. */
  function Admitted(rules: seq<Rule>, l: Limits, trace: seq<Event>, bucketKey: string): nat
    decreases |trace|
  {
    if trace == [] then 0
    else
      var r := Applied(rules, l, trace[0].op, trace[0].now);
      (if Touches(rules, trace[0], bucketKey) && r.1.decision.Some? && r.1.decision.value.allowed then 1 else 0)
      + Admitted(rules, r.0, trace[1..], bucketKey)
  }

  /** Every event is at `last` or before. */
  predicate Until(trace: seq<Event>, last: int) { forall i :: 0 <= i < |trace| ==> trace[i].now <= last }

  lemma {:induction false} AllCountedSpares(l: Limits, rule: Rule, keys: seq<string>, now: int, bucketKey: string)
    requires forall k :: k in keys ==> BucketKey(rule, k) != bucketKey
    ensures var l' := AllCounted(l, rule, keys, now);
            && (IsLive(l'.buckets, bucketKey, now) <==> IsLive(l.buckets, bucketKey, now))
            && (IsLive(l.buckets, bucketKey, now) ==> l'.buckets[bucketKey] == l.buckets[bucketKey])
    decreases |keys|
  {
    if keys != [] {
      assert keys[0] in keys;
      AllCountedSpares(Counted(l, BucketKey(rule, keys[0]), now, rule.windowMs), rule, keys[1..], now, bucketKey);
    }
  }

  lemma {:induction false} ClearedSpares(l: Limits, rule: Rule, keys: seq<string>, bucketKey: string)
    requires forall k :: k in keys ==> BucketKey(rule, k) != bucketKey
    ensures var l' := Cleared(l, rule, keys);
            (bucketKey in l'.buckets <==> bucketKey in l.buckets)
            && (bucketKey in l.buckets ==> l'.buckets[bucketKey] == l.buckets[bucketKey])
    decreases |keys|
  {
    if keys != [] {
      assert keys[0] in keys;
      ClearedSpares(l.(buckets := l.buckets - {BucketKey(rule, keys[0])}), rule, keys[1..], bucketKey);
    }
  }

  /** An event that does not touch a bucket, its sweep included, leaves it as live as it was. */
  lemma UntouchedStays(rules: seq<Rule>, l: Limits, e: Event, bucketKey: string)
    requires !Touches(rules, e, bucketKey)
    ensures var l' := Applied(rules, l, e.op, e.now).0;
            && (IsLive(l'.buckets, bucketKey, e.now) <==> IsLive(l.buckets, bucketKey, e.now))
            && (IsLive(l.buckets, bucketKey, e.now) ==> l'.buckets[bucketKey] == l.buckets[bucketKey])
  {
    var rule := OpRule(rules, e.op);
    if rule.Some? {
      if e.op.Hit? {
        AllCountedSpares(l, rule.value, e.op.keys, e.now, bucketKey);
      } else if e.op.Clear? {
        ClearedSpares(l, rule.value, e.op.keys, bucketKey);
      }
    }
  }

  /** The bucket is live with this count and end. */
  predicate Holds(l: Limits, bucketKey: string, now: int, count: nat, resetAt: int) {
    IsLive(l.buckets, bucketKey, now) && l.buckets[bucketKey] == Bucket(count, resetAt)
  }

  function Left(allowance: nat, count: nat): nat { Max(0, allowance - count) }

  function Least(x: nat, y: nat): nat { if x <= y then x else y }

  /** While a bucket is live, it admits what its count leaves of the allowance. */
  lemma {:induction false} RestOfWindowAdmits(rules: seq<Rule>, l: Limits, trace: seq<Event>, rule: Rule, key: string,
                                              scale: nat, count: nat, resetAt: int)
    requires NonDecreasing(trace) && OnlyChecks(rules, trace, rule, key, scale)
    requires Until(trace, resetAt - 1) && (trace != [] ==> Holds(l, BucketKey(rule, key), trace[0].now, count, resetAt))
    ensures Admitted(rules, l, trace, BucketKey(rule, key))
            == Least(Asked(rules, trace, BucketKey(rule, key)), Left(rule.requests * scale, count))
    decreases |trace|
  {
    if trace != [] {
      var e := trace[0];
      var l' := Applied(rules, l, e.op, e.now).0;
      var bucketKey := BucketKey(rule, key);
      assert forall i :: 0 <= i < |trace[1..]| ==> trace[1..][i] == trace[i + 1];
      if Touches(rules, e, bucketKey) {
        assert Holds(l', bucketKey, e.now, count + 1, resetAt);
        RestOfWindowAdmits(rules, l', trace[1..], rule, key, scale, count + 1, resetAt);
      } else {
        UntouchedStays(rules, l, e, bucketKey);
        assert Holds(l', bucketKey, e.now, count, resetAt);
        RestOfWindowAdmits(rules, l', trace[1..], rule, key, scale, count, resetAt);
      }
    }
  }

  /** The request that opens a bucket is admitted, and the window is its own. */
  lemma OpeningIsAdmitted(rules: seq<Rule>, l: Limits, e: Event, rule: Rule, key: string)
    requires Touches(rules, e, BucketKey(rule, key)) && e.op.Check? && OpRule(rules, e.op) == Some(rule)
    requires !IsLive(l.buckets, BucketKey(rule, key), e.now)
    ensures var r := Applied(rules, l, e.op, e.now);
            && r.1.decision == Some(Decision(true, rule.action, None))
            && r.0.buckets[BucketKey(rule, key)] == Bucket(1, e.now + rule.windowMs)
  {}

  /**
   * Main result: of the requests in one window of a key, at a fixed scale, the first `requests` times `scale` are
   * admitted and no more (the one that opens the window always).
   */
  lemma WindowAdmits(rules: seq<Rule>, l: Limits, trace: seq<Event>, rule: Rule, key: string, scale: nat)
    requires trace != [] && NonDecreasing(trace) && OnlyChecks(rules, trace, rule, key, scale)
    requires Touches(rules, trace[0], BucketKey(rule, key)) && !IsLive(l.buckets, BucketKey(rule, key), trace[0].now)
    requires Until(trace, trace[0].now + rule.windowMs - 1)
    ensures Admitted(rules, l, trace, BucketKey(rule, key))
            == Least(Asked(rules, trace, BucketKey(rule, key)), Max(1, rule.requests * scale))
  {
    var e := trace[0];
    OpeningIsAdmitted(rules, l, e, rule, key);
    assert forall i :: 0 <= i < |trace[1..]| ==> trace[1..][i] == trace[i + 1];
    RestOfWindowAdmits(rules, Applied(rules, l, e.op, e.now).0, trace[1..], rule, key, scale, 1, e.now + rule.windowMs);
  }

  /** A trace that ends before a window opened at its start could end admits one allowance. */
  lemma {:induction false} ShortSpanAdmits(rules: seq<Rule>, l: Limits, trace: seq<Event>, rule: Rule, key: string,
                                           scale: nat)
    requires NonDecreasing(trace) && OnlyChecks(rules, trace, rule, key, scale)
    requires trace != [] ==> Until(trace, trace[0].now + rule.windowMs - 1)
    requires trace != [] ==> !IsLive(l.buckets, BucketKey(rule, key), trace[0].now)
    ensures Admitted(rules, l, trace, BucketKey(rule, key)) <= Max(1, rule.requests * scale)
    decreases |trace|
  {
    if trace != [] {
      if Touches(rules, trace[0], BucketKey(rule, key)) {
        WindowAdmits(rules, l, trace, rule, key, scale);
      } else {
        UntouchedStays(rules, l, trace[0], BucketKey(rule, key));
        assert forall i :: 0 <= i < |trace[1..]| ==> trace[1..][i] == trace[i + 1];
        ShortSpanAdmits(rules, Applied(rules, l, trace[0].op, trace[0].now).0, trace[1..], rule, key, scale);
      }
    }
  }

  /** The rest of a live window, and then less than a window more. */
  lemma {:induction false} TwoWindowsAdmit(rules: seq<Rule>, l: Limits, trace: seq<Event>, rule: Rule, key: string,
                                           scale: nat, count: nat, resetAt: int)
    requires NonDecreasing(trace) && OnlyChecks(rules, trace, rule, key, scale)
    requires Until(trace, resetAt + rule.windowMs - 1)
    requires trace != [] ==> if trace[0].now < resetAt then Holds(l, BucketKey(rule, key), trace[0].now, count, resetAt)
                             else !IsLive(l.buckets, BucketKey(rule, key), trace[0].now)
    ensures Admitted(rules, l, trace, BucketKey(rule, key))
            <= Left(rule.requests * scale, count) + Max(1, rule.requests * scale)
    decreases |trace|
  {
    if trace != [] {
      var e := trace[0];
      var bucketKey := BucketKey(rule, key);
      assert forall i :: 0 <= i < |trace[1..]| ==> trace[1..][i] == trace[i + 1];
      if e.now >= resetAt {
        ShortSpanAdmits(rules, l, trace, rule, key, scale);
      } else {
        var l' := Applied(rules, l, e.op, e.now).0;
        if Touches(rules, e, bucketKey) {
          assert Holds(l', bucketKey, e.now, count + 1, resetAt);
          TwoWindowsAdmit(rules, l', trace[1..], rule, key, scale, count + 1, resetAt);
        } else {
          UntouchedStays(rules, l, e, bucketKey);
          TwoWindowsAdmit(rules, l', trace[1..], rule, key, scale, count, resetAt);
        }
      }
    }
  }

  /** Any span of at most one window's length, from any state, admits at most twice the allowance. */
  lemma {:induction false} SpanAdmitsAtMostTwice(rules: seq<Rule>, l: Limits, trace: seq<Event>, rule: Rule, key: string,
                                                 scale: nat)
    requires NonDecreasing(trace) && OnlyChecks(rules, trace, rule, key, scale) && rule.windowMs > 0
    requires trace != [] ==> Until(trace, trace[0].now + rule.windowMs)
    ensures Admitted(rules, l, trace, BucketKey(rule, key)) <= 2 * Max(1, rule.requests * scale)
    decreases |trace|
  {
    if trace != [] {
      var e := trace[0];
      var bucketKey := BucketKey(rule, key);
      var l' := Applied(rules, l, e.op, e.now).0;
      assert forall i :: 0 <= i < |trace[1..]| ==> trace[1..][i] == trace[i + 1];
      if IsLive(l.buckets, bucketKey, e.now) {
        TwoWindowsAdmit(rules, l, trace, rule, key, scale, l.buckets[bucketKey].count, l.buckets[bucketKey].resetAt);
      } else if Touches(rules, e, bucketKey) {
        OpeningIsAdmitted(rules, l, e, rule, key);
        TwoWindowsAdmit(rules, l', trace[1..], rule, key, scale, 1, e.now + rule.windowMs);
      } else {
        UntouchedStays(rules, l, e, bucketKey);
        SpanAdmitsAtMostTwice(rules, l', trace[1..], rule, key, scale);
      }
    }
  }

  /** A window of no length refuses nothing, however many ask. */
  lemma {:induction false} NoLengthRefusesNothing(rules: seq<Rule>, l: Limits, trace: seq<Event>, rule: Rule, key: string,
                                                  scale: nat)
    requires NonDecreasing(trace) && OnlyChecks(rules, trace, rule, key, scale) && rule.windowMs == 0
    requires trace != [] ==> !IsLive(l.buckets, BucketKey(rule, key), trace[0].now)
    ensures Admitted(rules, l, trace, BucketKey(rule, key)) == Asked(rules, trace, BucketKey(rule, key))
    decreases |trace|
  {
    if trace != [] {
      var e := trace[0];
      var l' := Applied(rules, l, e.op, e.now).0;
      assert forall i :: 0 <= i < |trace[1..]| ==> trace[1..][i] == trace[i + 1];
      if Touches(rules, e, BucketKey(rule, key)) {
        OpeningIsAdmitted(rules, l, e, rule, key);
      } else {
        UntouchedStays(rules, l, e, BucketKey(rule, key));
      }
      NoLengthRefusesNothing(rules, l', trace[1..], rule, key, scale);
    }
  }

  /** The bound on a span, for every state and every trace over which only this rule's checks touch the bucket. */
  ghost predicate SpanIsBounded(rules: seq<Rule>, rule: Rule, key: string, scale: nat) {
    forall l: Limits, trace: seq<Event> |
      && NonDecreasing(trace) && OnlyChecks(rules, trace, rule, key, scale)
      && (trace != [] ==> Until(trace, trace[0].now + rule.windowMs)) ::
      Admitted(rules, l, trace, BucketKey(rule, key)) <= 2 * Max(1, rule.requests * scale)
  }

  /** The same check, `n` times at one moment. */
  function Repeated(op: Op, n: nat): seq<Event> { seq(n, _ => Event(op, 0)) }

  lemma {:induction false} AllAsked(rules: seq<Rule>, op: Op, n: nat, bucketKey: string)
    requires Touches(rules, Event(op, 0), bucketKey)
    ensures Asked(rules, Repeated(op, n), bucketKey) == n
    decreases n
  {
    hide Touches;
    if n > 0 {
      assert Repeated(op, n)[1..] == Repeated(op, n - 1);
      AllAsked(rules, op, n - 1, bucketKey);
    }
  }

  /**
   * Main result: a rule that is met bounds what a span of its window's length admits to twice the allowance, on every
   * trace and from every state, if and only if its window has a length.
   */
  lemma SpanIsBoundedExactly(rules: seq<Rule>, rule: Rule, path: string, headers: set<string>, key: string, scale: nat)
    requires RuleFor(rules, path, headers) == Some(rule)
    ensures SpanIsBounded(rules, rule, key, scale) <==> rule.windowMs > 0
  {
    hide Admitted;
    hide RuleFor;
    if rule.windowMs > 0 {
      forall l: Limits, trace: seq<Event> |
        && NonDecreasing(trace) && OnlyChecks(rules, trace, rule, key, scale)
        && (trace != [] ==> Until(trace, trace[0].now + rule.windowMs))
        ensures Admitted(rules, l, trace, BucketKey(rule, key)) <= 2 * Max(1, rule.requests * scale)
      {
        SpanAdmitsAtMostTwice(rules, l, trace, rule, key, scale);
      }
    } else {
      var most := 2 * Max(1, rule.requests * scale);
      var op := Op.Check(key, path, headers, scale);
      var trace := Repeated(op, most + 1);
      assert OpRule(rules, op) == Some(rule);
      AllAsked(rules, op, most + 1, BucketKey(rule, key));
      NoLengthRefusesNothing(rules, FRESH, trace, rule, key, scale);
    }
  }

  /** Waiting `retryAfter` seconds outlasts the bucket, and a second less does not, unless one is the least it says. */
  lemma RetryAfterOutlasts(bucket: Bucket, now: int)
    requires bucket.resetAt > now
    ensures now + 1000 * RetryAfter(bucket, now) >= bucket.resetAt
    ensures RetryAfter(bucket, now) > 1 ==> now + 1000 * (RetryAfter(bucket, now) - 1) < bucket.resetAt
  {
    var ms := bucket.resetAt - now + 999;
    assert ms == 1000 * (ms / 1000) + ms % 1000;
  }

  /** Between `now` and `later`, what touches the bucket is checks made before it resets. */
  predicate OnlyRetries(rules: seq<Rule>, trace: seq<Event>, bucketKey: string, resetAt: int) {
    forall i :: 0 <= i < |trace| && Touches(rules, trace[i], bucketKey) ==> trace[i].op.Check? && trace[i].now < resetAt
  }

  /** Checks of a live bucket do not put its end off, and nothing else touches it. */
  lemma {:induction false} ResetIsNotPutOff(rules: seq<Rule>, l: Limits, trace: seq<Event>, bucketKey: string, resetAt: int,
                                            now: int, later: int)
    requires NonDecreasing(trace) && OnlyRetries(rules, trace, bucketKey, resetAt) && Until(trace, later)
    requires trace != [] ==> now <= trace[0].now
    requires now < resetAt ==> bucketKey in l.buckets && l.buckets[bucketKey].resetAt == resetAt
    requires resetAt <= later && !IsLive(l.buckets, bucketKey, later)
    ensures !IsLive(After(rules, l, trace).buckets, bucketKey, later)
    decreases |trace|
  {
    if trace != [] {
      var e := trace[0];
      var l' := Applied(rules, l, e.op, e.now).0;
      assert forall i :: 0 <= i < |trace[1..]| ==> trace[1..][i] == trace[i + 1];
      if !Touches(rules, e, bucketKey) {
        UntouchedStays(rules, l, e, bucketKey);
      }
      SameOrExpired(l', bucketKey, e.now, later);
      ResetIsNotPutOff(rules, l', trace[1..], bucketKey, resetAt, e.now, later);
    }
  }

  lemma SameOrExpired(l: Limits, bucketKey: string, now: int, later: int)
    requires now <= later
    ensures !IsLive(l.buckets, bucketKey, now) ==> !IsLive(l.buckets, bucketKey, later)
  {}

  /**
   * Main result: a refused request is admitted once it has waited `retryAfter` seconds, whatever happens to other buckets
   * meanwhile and however often it was tried again before its own reset.
   */
  lemma RefusedIsAdmittedLater(rules: seq<Rule>, l: Limits, trace: seq<Event>, rule: Rule, key: string, scale: nat,
                               now: int, later: int)
    requires var d := Decide(l, rule, key, scale, now); !d.allowed && later >= now + 1000 * d.retryAfter.value
    requires NonDecreasing(trace) && (trace != [] ==> now <= trace[0].now) && Until(trace, later)
    requires OnlyRetries(rules, trace, BucketKey(rule, key), l.buckets[BucketKey(rule, key)].resetAt)
    ensures var refused := Counted(l, BucketKey(rule, key), now, rule.windowMs);
            Decide(After(rules, refused, trace), rule, key, scale, later).allowed
  {
    var bucketKey := BucketKey(rule, key);
    var bucket := l.buckets[bucketKey];
    RetryAfterOutlasts(bucket, now);
    RetryIsOfTheReset(bucket, bucket.(count := bucket.count + 1), now);
    ResetIsNotPutOff(rules, Counted(l, bucketKey, now, rule.windowMs), trace, bucketKey, bucket.resetAt, now, later);
  }

  lemma RetryIsOfTheReset(a: Bucket, b: Bucket, now: int)
    requires a.resetAt == b.resetAt
    ensures RetryAfter(a, now) == RetryAfter(b, now)
  {}

  /** Two patterns can share a bucket exactly when one goes on after the other with a `|`. */
  lemma BucketsMeetExactly(r: Rule, s: Rule)
    requires r.pattern != s.pattern
    ensures (exists j, k :: BucketKey(r, j) == BucketKey(s, k)) <==> r.pattern + "|" <= s.pattern || s.pattern + "|" <= r.pattern
  {
    forall j, k | BucketKey(r, j) == BucketKey(s, k)
      ensures r.pattern + "|" <= s.pattern || s.pattern + "|" <= r.pattern
    {
      OneGoesOn(r.pattern, j, s.pattern, k);
    }
    if r.pattern + "|" <= s.pattern {
      assert BucketKey(r, s.pattern[|r.pattern| + 1..] + "|") == BucketKey(s, "");
    }
    if s.pattern + "|" <= r.pattern {
      assert BucketKey(r, "") == BucketKey(s, r.pattern[|s.pattern| + 1..] + "|");
    }
  }

  lemma OneGoesOn(p: string, j: string, q: string, k: string)
    requires p + "|" + j == q + "|" + k && p != q
    ensures p + "|" <= q || q + "|" <= p
  {
    var whole := p + "|" + j;
    assert whole[..|p|] == p && whole[..|p| + 1] == p + "|";
    assert whole == q + "|" + k && whole[..|q|] == q && whole[..|q| + 1] == q + "|";
    if |p| < |q| {
      assert q[..|p| + 1] == whole[..|p| + 1];
    } else if |q| < |p| {
      assert p[..|q| + 1] == whole[..|q| + 1];
    }
  }

  /** Configured patterns have no `|`, so two buckets are one exactly when rule pattern and key are. */
  lemma BucketKeysAreDistinct(r: Rule, s: Rule, j: string, k: string)
    requires '|' !in r.pattern && '|' !in s.pattern
    ensures BucketKey(r, j) == BucketKey(s, k) <==> r.pattern == s.pattern && j == k
  {
    var x, y := BucketKey(r, j), BucketKey(s, k);
    var m, n := |r.pattern|, |s.pattern|;
    assert x[m] == '|' && y[n] == '|';
    assert forall i :: 0 <= i < m ==> x[i] == r.pattern[i] && x[i] in r.pattern;
    assert forall i :: 0 <= i < n ==> y[i] == s.pattern[i] && y[i] in s.pattern;
    assert r.pattern == x[..m] && s.pattern == y[..n] && j == x[m + 1..] && k == y[n + 1..];
  }
}
