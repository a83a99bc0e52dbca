/**
 * The guard built on the limiter (packages/http/src/security-middleware.ts): logins count failures only, checkouts count
 * per cart and per address, everything else per address.
 */
module SecurityGuard {
  import opened Wrappers
  import L = RateLimiter
  import PathPattern
  import ShopperAttestation

  const LOGIN_PATH := "/api/auth/login"
  const CHECKOUT_PATH := "/api/checkout"
  const CHECKOUT_ADDRESS_CEILING: nat := 10

  const UNSAFE_METHODS := {"POST", "PUT", "PATCH", "DELETE"}

  /** The guard's own settings: the key of the attestations, and whether unsafe methods need a CSRF token. */
  datatype Settings = Settings(mac: ShopperAttestation.Mac, csrf: bool)

  /**
   * A request as it arrives: `address` is its own, `token` the attestation it carries, `cart` the digest of its cart
   * cookie, empty without one, and `account` the lower-cased email a login names. A CSRF cookie or header that is missing
   * is empty; `csrfExempt` is the route's option.
   */
  datatype Context = Context(
    id: nat,
    method_: string,
    path: string,
    address: string,
    token: Option<string>,
    headers: set<string>,
    cart: string,
    account: Option<string>,
    csrfCookie: string,
    csrfHeader: string,
    csrfExempt: bool)

  /** The address attested for the request at that moment. */
  function Attested(s: Settings, c: Context, now: int): Option<string> {
    if c.token.None? then None else ShopperAttestation.Verify(s.mac, c.token.value, now)
  }

  /** Where the request comes from as the guard sees it then: attested, or else its own address. */
  function ClientIp(s: Settings, c: Context, now: int): string {
    if Attested(s, c, now).Some? then Attested(s, c, now).value else c.address
  }

  predicate VerifiesCsrf(c: Context) { c.csrfCookie != "" && c.csrfHeader != "" && c.csrfCookie == c.csrfHeader }

  predicate RefusesCsrf(s: Settings, c: Context) {
    s.csrf && !c.csrfExempt && c.method_ in UNSAFE_METHODS && !VerifiesCsrf(c)
  }

  /** What the guard reads of a request at one moment. */
  datatype Request = Request(
    method_: string,
    path: string,
    ip: string,
    headers: set<string>,
    cart: string,
    account: Option<string>,
    csrfRefused: bool)

  function Seen(s: Settings, c: Context, now: int): Request {
    Request(c.method_, c.path, ClientIp(s, c, now), c.headers, c.cart, c.account, RefusesCsrf(s, c))
  }

  datatype Refusal = RateLimited(decision: L.Decision) | CsrfInvalid

  predicate IsLogin(r: Request) { r.method_ == "POST" && r.path == LOGIN_PATH }

  predicate IsCheckout(r: Request) { r.method_ == "POST" && r.path == CHECKOUT_PATH }

  /** The (address, cart) pair; the address key is the address itself. */
  function PairKey(r: Request): string { r.ip + "|cart:" + r.cart }

  function AccountKeys(r: Request): seq<string> {
    if r.account.Some? && r.account.value != "" then ["account:" + r.account.value] else []
  }

  predicate Refuses(answer: L.Answer) { answer.decision.Some? && !answer.decision.value.allowed }

  /** The limiter operations a request makes on its way in: the pair is checked only when the address let it pass. */
  function AdmitOps(rules: seq<L.Rule>, l: L.Limits, r: Request, now: int): seq<L.Op> {
    if IsLogin(r) then [L.Full(r.path, [r.ip])]
    else if IsCheckout(r) then
      var address := L.Op.Check(r.ip, r.path, r.headers, CHECKOUT_ADDRESS_CEILING);
      if Refuses(L.Applied(rules, l, address, now).1) then [address]
      else [address, L.Op.Check(PairKey(r), r.path, r.headers, 1)]
    else [L.Op.Check(r.ip, r.path, r.headers, 1)]
  }

  /** The limiter operation of a request's answer. */
  function FinishOps(r: Request, status: nat): seq<L.Op> {
    if !IsLogin(r) then []
    else if 200 <= status < 300 then [L.Clear(r.path, AccountKeys(r))]
    else [L.Hit(r.path, [r.ip] + AccountKeys(r))]
  }

  datatype Event =
    | Admit(request: Request, now: int)
    | Finish(request: Request, status: nat, now: int)

  /** The guard's two turns on a request: on its way in, and on the handler's answer. */
  datatype Turn =
    | Admits(context: Context, now: int)
    | Finishes(context: Context, status: nat, now: int)

  /** What the guard reads in a turn: the address is worked out afresh in each. */
  function EventOf(s: Settings, t: Turn): Event {
    if t.Admits? then Admit(Seen(s, t.context, t.now), t.now) else Finish(Seen(s, t.context, t.now), t.status, t.now)
  }

  function EventsOf(s: Settings, turns: seq<Turn>): seq<Event> {
    if turns == [] then [] else [EventOf(s, turns[0])] + EventsOf(s, turns[1..])
  }

  function Ops(rules: seq<L.Rule>, l: L.Limits, e: Event): seq<L.Op> {
    match e
    case Admit(r, now) => AdmitOps(rules, l, r, now)
    case Finish(r, status, _) => FinishOps(r, status)
  }

  /** The operations as events of the limiter's trace. */
  function Timed(ops: seq<L.Op>, now: int): seq<L.Event> {
    if ops == [] then [] else [L.Event(ops[0], now)] + Timed(ops[1..], now)
  }

  function Stepped(rules: seq<L.Rule>, l: L.Limits, e: Event): L.Limits {
    L.After(rules, l, Timed(Ops(rules, l, e), e.now))
  }

  /** What `admit` answers: the refusal of the last operation, then the CSRF check's. */
  function Admission(rules: seq<L.Rule>, l: L.Limits, r: Request, now: int): Option<Refusal> {
    var answers := L.Answers(rules, l, Timed(AdmitOps(rules, l, r, now), now));
    var last := if answers == [] then L.NO_ANSWER else answers[|answers| - 1];
    if Refuses(last) then Some(RateLimited(last.decision.value))
    else if r.csrfRefused then Some(CsrfInvalid)
    else None
  }

  // -------------------------------------------------------------------------------------------------------------
  // The guard
  // -------------------------------------------------------------------------------------------------------------

  class Guard {
    const settings: Settings
    const limiter: L.RateLimiter

    ghost predicate Valid()
      reads this, limiter
    {
      limiter.Valid()
    }

    constructor (settings: Settings, rules: seq<L.Rule>)
      ensures Valid() && fresh(limiter) && this.settings == settings
      ensures limiter.rules == rules && limiter.State() == L.FRESH
    {
      this.settings := settings;
      limiter := new L.RateLimiter(rules);
    }

    method Admit(c: Context, now: int) returns (refusal: Option<Refusal>)
      requires Valid()
      modifies limiter
      ensures Valid()
      ensures refusal == Admission(limiter.rules, old(limiter.State()), Seen(settings, c, now), now)
      ensures limiter.State() == Stepped(limiter.rules, old(limiter.State()), EventOf(settings, Admits(c, now)))
    {
      var r := Seen(settings, c, now);
      ghost var rules, l := limiter.rules, limiter.State();
      ghost var ops := AdmitOps(rules, l, r, now);
      var decision: Option<L.Decision>;
      if IsLogin(r) {
        decision := limiter.Full(r.path, [r.ip], now);
        OneOp(rules, l, ops[0], now);
      } else if IsCheckout(r) {
        decision := limiter.Check(r.ip, r.path, r.headers, CHECKOUT_ADDRESS_CEILING, now);
        if decision.Some? && !decision.value.allowed {
          OneOp(rules, l, ops[0], now);
        } else {
          decision := limiter.Check(PairKey(r), r.path, r.headers, 1, now);
          TwoOps(rules, l, ops[0], ops[1], now);
        }
      } else {
        decision := limiter.Check(r.ip, r.path, r.headers, 1, now);
        OneOp(rules, l, ops[0], now);
      }
      if decision.Some? && !decision.value.allowed {
        return Some(RateLimited(decision.value));
      }
      refusal := if r.csrfRefused then Some(CsrfInvalid) else None;
    }

    /** `warned` is the warning that an account's failures have just reached the login rule's count. */
    method Finish(c: Context, status: nat, now: int) returns (warned: bool)
      requires Valid()
      modifies limiter
      ensures Valid()
      ensures limiter.State() == Stepped(limiter.rules, old(limiter.State()), EventOf(settings, Finishes(c, status, now)))
      ensures warned <==>
              var r := Seen(settings, c, now);
              && IsLogin(r) && !(200 <= status < 300) && AccountKeys(r) != []
              && var rule := L.RuleFor(limiter.rules, r.path, {});
                 && rule.Some?
                 && L.CountsAfter(old(limiter.State()), rule.value, [r.ip] + AccountKeys(r), now)[1] == rule.value.requests
    {
      var r := Seen(settings, c, now);
      ghost var rules, l := limiter.rules, limiter.State();
      warned := false;
      if IsLogin(r) {
        OneOp(rules, l, FinishOps(r, status)[0], now);
        if 200 <= status < 300 {
          limiter.Clear(r.path, AccountKeys(r));
        } else {
          var counts := limiter.Hit(r.path, [r.ip] + AccountKeys(r), now);
          var rule := L.RuleFor(limiter.rules, r.path, {});
          if rule.Some? {
            warned := |counts| > 1 && counts[1] == rule.value.requests;
          }
        }
      }
    }
  }

  lemma OneOp(rules: seq<L.Rule>, l: L.Limits, op: L.Op, now: int)
    ensures L.After(rules, l, Timed([op], now)) == L.Applied(rules, l, op, now).0
    ensures L.Answers(rules, l, Timed([op], now)) == [L.Applied(rules, l, op, now).1]
  {
    assert Timed([op], now) == [L.Event(op, now)];
  }

  lemma TwoOps(rules: seq<L.Rule>, l: L.Limits, op: L.Op, next: L.Op, now: int)
    ensures var r := L.Applied(rules, l, op, now);
            var s := L.Applied(rules, r.0, next, now);
            && L.After(rules, l, Timed([op, next], now)) == s.0
            && L.Answers(rules, l, Timed([op, next], now)) == [r.1, s.1]
  {
    assert [op, next][1..] == [next];
    assert Timed([op, next], now) == [L.Event(op, now)] + Timed([next], now);
    assert Timed([op, next], now)[1..] == Timed([next], now);
    OneOp(rules, L.Applied(rules, l, op, now).0, next, now);
  }

  // -------------------------------------------------------------------------------------------------------------
  // The rules and the requests that reach the guard
  // -------------------------------------------------------------------------------------------------------------

  /** No bar and no prefix a key gives a meaning to. */
  predicate IsAddress(ip: string) { '|' !in ip && !("account:" <= ip) }

  /** The only route at the login path is the login, and addresses are addresses. */
  predicate Routed(r: Request) { IsAddress(r.ip) && (r.path == LOGIN_PATH ==> r.method_ == "POST") }

  /** The login path has a rule of its own, which any request to it meets; no pattern has a bar. */
  ghost predicate LoginRule(rules: seq<L.Rule>, rule: L.Rule) {
    && rule.pattern == LOGIN_PATH && rule.requests > 0 && rule in rules
    && L.RuleFor(rules, LOGIN_PATH, {}) == Some(rule)
    && forall r :: r in rules ==> '|' !in r.pattern
  }

  lemma {:induction false} PlainPatternAccepts(p: string, path: string)
    requires '*' !in p
    ensures PathPattern.PatternAccepts(p, path) <==> path == p
    decreases |p|
  {
    if p != [] {
      assert p[0] in p;
      if path != [] {
        PlainPatternAccepts(p[1..], path[1..]);
        assert path == [path[0]] + path[1..] && p == [p[0]] + p[1..];
      }
    }
  }

  lemma NoPlaceholderIn(p: string)
    requires '_' !in p
    ensures !PathPattern.HasPlaceholder(p)
  {
    forall i | 0 <= i <= |p|
      ensures !PathPattern.ReadsAsPlaceholder(p[i..])
    {
      if i < |p| {
        assert p[i..][0] == p[i] && p[i] in p;
      }
    }
  }

  /** A rule whose pattern is a path with no star or underscore applies to that path alone. */
  lemma PlainRuleApplies(rule: L.Rule, path: string, headers: set<string>)
    requires '*' !in rule.pattern && '_' !in rule.pattern && L.Applies(rule, path, headers)
    ensures path == rule.pattern
  {
    var p := rule.pattern;
    NoPlaceholderIn(p);
    PathPattern.PathPatternAccepts(p, path);
    PlainPatternAccepts(p, path);
  }

  lemma {:induction false} RuleForApplies(rules: seq<L.Rule>, path: string, headers: set<string>)
    ensures var rule := L.RuleFor(rules, path, headers);
            rule.Some? ==> rule.value in rules && L.Applies(rule.value, path, headers)
    decreases |rules|
  {
    if rules != [] {
      RuleForApplies(rules[1..], path, headers);
    }
  }

  lemma PathsArePlain()
    ensures '*' !in LOGIN_PATH && '_' !in LOGIN_PATH && '*' !in CHECKOUT_PATH && '_' !in CHECKOUT_PATH
  {}

  /** Off a rule's own path, no request counts under its buckets. */
  lemma OtherPathsOtherBuckets(rules: seq<L.Rule>, own: L.Rule, path: string, headers: set<string>, j: string, k: string)
    requires own in rules && (forall r :: r in rules ==> '|' !in r.pattern)
    requires '*' !in own.pattern && '_' !in own.pattern && path != own.pattern && L.RuleFor(rules, path, headers).Some?
    ensures L.BucketKey(L.RuleFor(rules, path, headers).value, j) != L.BucketKey(own, k)
  {
    hide L.Applies;
    hide L.RuleFor;
    RuleForApplies(rules, path, headers);
    var rule := L.RuleFor(rules, path, headers).value;
    if rule.pattern == own.pattern {
      PlainRuleApplies(rule, path, headers);
    }
    hide *;
    L.BucketKeysAreDistinct(rule, own, j, k);
  }

  // -------------------------------------------------------------------------------------------------------------
  // Failed logins of one address
  // -------------------------------------------------------------------------------------------------------------

  /** The failures the login bucket of `ip` holds at `now`. */
  function Failures(l: L.Limits, login: L.Rule, ip: string, now: int): nat {
    var key := L.BucketKey(login, ip);
    if L.IsLive(l.buckets, key, now) then l.buckets[key].count else 0
  }

  predicate FailedLogin(e: Event, ip: string) {
    e.Finish? && IsLogin(e.request) && e.request.ip == ip && !(200 <= e.status < 300)
  }

  /** The operations count nothing under the key and clear nothing there. */
  predicate Spare(rules: seq<L.Rule>, ops: seq<L.Op>, now: int, key: string) {
    forall op :: op in ops ==> !L.Touches(rules, L.Event(op, now), key)
  }

  lemma {:induction false} SparedStays(rules: seq<L.Rule>, l: L.Limits, ops: seq<L.Op>, now: int, key: string)
    requires Spare(rules, ops, now, key)
    ensures var l' := L.After(rules, l, Timed(ops, now));
            && (L.IsLive(l'.buckets, key, now) <==> L.IsLive(l.buckets, key, now))
            && (L.IsLive(l.buckets, key, now) ==> l'.buckets[key] == l.buckets[key])
    decreases |ops|
  {
    if ops != [] {
      assert ops[0] in ops;
      var e := L.Event(ops[0], now);
      L.UntouchedStays(rules, l, e, key);
      assert Timed(ops, now)[1..] == Timed(ops[1..], now);
      SparedStays(rules, L.Applied(rules, l, ops[0], now).0, ops[1..], now, key);
    }
  }

  /** A login's operations concern its address and its account, in the login rule's buckets. */
  lemma LoginKeys(rules: seq<L.Rule>, login: L.Rule, r: Request, ip: string, key: string)
    requires LoginRule(rules, login) && Routed(r) && IsAddress(ip) && key in [r.ip] + AccountKeys(r)
    ensures L.BucketKey(login, key) == L.BucketKey(login, ip) <==> key == ip
    ensures key == ip ==> r.ip == ip
  {
    L.BucketKeysAreDistinct(login, login, key, ip);
  }

  lemma OthersSpareTheAddress(rules: seq<L.Rule>, login: L.Rule, l: L.Limits, e: Event, ip: string)
    requires LoginRule(rules, login) && Routed(e.request) && IsAddress(ip) && !FailedLogin(e, ip)
    ensures Spare(rules, Ops(rules, l, e), e.now, L.BucketKey(login, ip))
  {
    hide L.RuleFor;
    var r := e.request;
    var K := L.BucketKey(login, ip);
    forall op | op in Ops(rules, l, e)
      ensures !L.Touches(rules, L.Event(op, e.now), K)
    {
      if IsLogin(r) {
        forall k | k in [r.ip] + AccountKeys(r)
          ensures L.BucketKey(login, k) == K <==> k == ip && r.ip == ip
        {
          LoginKeys(rules, login, r, ip, k);
        }
        assert L.OpRule(rules, op) == Some(login);
        if op.Clear? {
          forall k | k in op.keys
            ensures L.BucketKey(login, k) != K
          {
            assert k in [r.ip] + AccountKeys(r);
            assert k == "account:" + r.account.value;
          }
        }
      } else {
        assert op.Check? && op.path == r.path != LOGIN_PATH;
        if L.OpRule(rules, op).Some? {
          PathsArePlain();
          OtherPathsOtherBuckets(rules, login, r.path, r.headers, op.key, ip);
        }
      }
    }
  }

  lemma FailureCounts(rules: seq<L.Rule>, login: L.Rule, l: L.Limits, e: Event, ip: string)
    requires LoginRule(rules, login) && Routed(e.request) && IsAddress(ip) && FailedLogin(e, ip)
    ensures Failures(Stepped(rules, l, e), login, ip, e.now) <= Failures(l, login, ip, e.now) + 1
  {
    var r := e.request;
    var keys := [ip] + AccountKeys(r);
    var l1 := L.Counted(l, L.BucketKey(login, ip), e.now, login.windowMs);
    OneOp(rules, l, L.Hit(r.path, keys), e.now);
    assert keys[1..] == AccountKeys(r);
    assert L.AllCounted(l, login, keys, e.now) == L.AllCounted(l1, login, AccountKeys(r), e.now);
    forall k | k in AccountKeys(r)
      ensures L.BucketKey(login, k) != L.BucketKey(login, ip)
    {
      assert k in [r.ip] + AccountKeys(r);
      LoginKeys(rules, login, r, ip, k);
    }
    L.AllCountedSpares(l1, login, AccountKeys(r), e.now, L.BucketKey(login, ip));
  }

  predicate LetIn(rules: seq<L.Rule>, l: L.Limits, e: Event, ip: string) {
    e.Admit? && IsLogin(e.request) && e.request.ip == ip && Admission(rules, l, e.request, e.now).None?
  }

  function GuardAfter(rules: seq<L.Rule>, l: L.Limits, trace: seq<Event>): L.Limits
    decreases |trace|
  {
    if trace == [] then l else GuardAfter(rules, Stepped(rules, l, trace[0]), trace[1..])
  }

  predicate Timely(trace: seq<Event>, from: int)
    decreases |trace|
  {
    trace != [] ==> from <= trace[0].now && Timely(trace[1..], trace[0].now)
  }

  function LastTime(trace: seq<Event>, from: int): int {
    if trace == [] then from else trace[|trace| - 1].now
  }

  predicate AllRouted(trace: seq<Event>) { forall i :: 0 <= i < |trace| ==> Routed(trace[i].request) }

  /** A login let in found its address short of the rule's count. */
  lemma LetInIsNotFull(rules: seq<L.Rule>, login: L.Rule, l: L.Limits, e: Event, ip: string)
    requires LoginRule(rules, login) && LetIn(rules, l, e, ip)
    ensures Failures(l, login, ip, e.now) < login.requests && Stepped(rules, l, e) == l
  {
    hide L.RuleFor;
    OneOp(rules, l, L.Full(LOGIN_PATH, [ip]), e.now);
    assert L.DecideFull(l, login, [ip], e.now).allowed;
  }

  lemma FailuresFade(l: L.Limits, login: L.Rule, ip: string, from: int, now: int)
    requires from <= now
    ensures Failures(l, login, ip, now) <= Failures(l, login, ip, from)
  {}

  /** One request adds a failure at most, and only as a failed login; one let in finds the address short of the count. */
  lemma EventCounts(rules: seq<L.Rule>, login: L.Rule, l: L.Limits, e: Event, ip: string)
    requires LoginRule(rules, login) && Routed(e.request) && IsAddress(ip)
    ensures Failures(Stepped(rules, l, e), login, ip, e.now)
         <= Failures(l, login, ip, e.now) + if FailedLogin(e, ip) then 1 else 0
    ensures LetIn(rules, l, e, ip) ==>
              Failures(l, login, ip, e.now) < login.requests && Stepped(rules, l, e) == l && !FailedLogin(e, ip)
  {
    hide Ops;
    if LetIn(rules, l, e, ip) {
      LetInIsNotFull(rules, login, l, e, ip);
    } else if FailedLogin(e, ip) {
      FailureCounts(rules, login, l, e, ip);
    } else {
      OthersSpareTheAddress(rules, login, l, e, ip);
      SparedStays(rules, l, Ops(rules, l, e), e.now, L.BucketKey(login, ip));
    }
  }

  // -------------------------------------------------------------------------------------------------------------
  // Logins between their two turns
  // -------------------------------------------------------------------------------------------------------------

  predicate LetInAt(s: Settings, rules: seq<L.Rule>, l: L.Limits, t: Turn) {
    var r := Seen(s, t.context, t.now);
    t.Admits? && IsLogin(r) && Admission(rules, l, r, t.now).None?
  }

  predicate AnswersLogin(s: Settings, t: Turn) { t.Finishes? && IsLogin(Seen(s, t.context, t.now)) }

  /** The logins under way after a turn, each with the time it was let in. */
  function UnderWayAfter(s: Settings, rules: seq<L.Rule>, l: L.Limits, t: Turn, underWay: map<Context, int>): map<Context, int> {
    if LetInAt(s, rules, l, t) then underWay[t.context := t.now]
    else if AnswersLogin(s, t) then underWay - {t.context}
    else underWay
  }

  /** A request goes in once, and a login is answered only if it was let in. */
  ghost predicate Linked(s: Settings, rules: seq<L.Rule>, l: L.Limits, turns: seq<Turn>, underWay: map<Context, int>)
    decreases |turns|
  {
    turns != [] ==>
      var t := turns[0];
      && (LetInAt(s, rules, l, t) ==> t.context !in underWay)
      && (AnswersLogin(s, t) ==> t.context in underWay)
      && Linked(s, rules, Stepped(rules, l, EventOf(s, t)), turns[1..], UnderWayAfter(s, rules, l, t, underWay))
  }

  /** The logins under way that were let in under that address. */
  function Under(s: Settings, underWay: map<Context, int>, ip: string): set<Context> {
    set c | c in underWay && ClientIp(s, c, underWay[c]) == ip
  }

  /** At no moment are more than `most` logins let in under the address under way. */
  ghost predicate AtMost(s: Settings, rules: seq<L.Rule>, l: L.Limits, turns: seq<Turn>, underWay: map<Context, int>,
                         ip: string, most: nat)
    decreases |turns|
  {
    && |Under(s, underWay, ip)| <= most
    && (turns != [] ==>
          AtMost(s, rules, Stepped(rules, l, EventOf(s, turns[0])), turns[1..],
                 UnderWayAfter(s, rules, l, turns[0], underWay), ip, most))
  }

  /** A failed login counted under `ip` that was let in under another address. */
  predicate Strays(s: Settings, t: Turn, underWay: map<Context, int>, ip: string) {
    && FailedLogin(EventOf(s, t), ip) && t.context in underWay
    && ClientIp(s, t.context, underWay[t.context]) != ip
  }

  function StrayCount(s: Settings, rules: seq<L.Rule>, l: L.Limits, turns: seq<Turn>, underWay: map<Context, int>, ip: string): nat
    decreases |turns|
  {
    if turns == [] then 0
    else
      (if Strays(s, turns[0], underWay, ip) then 1 else 0)
      + StrayCount(s, rules, Stepped(rules, l, EventOf(s, turns[0])), turns[1..],
                   UnderWayAfter(s, rules, l, turns[0], underWay), ip)
  }

  lemma AddedUnder(s: Settings, underWay: map<Context, int>, c: Context, now: int, ip: string)
    requires c !in underWay
    ensures |Under(s, underWay[c := now], ip)| == |Under(s, underWay, ip)| + if ClientIp(s, c, now) == ip then 1 else 0
  {
    hide ClientIp;
    var before, after := Under(s, underWay, ip), Under(s, underWay[c := now], ip);
    assert after == if ClientIp(s, c, now) == ip then before + {c} else before;
  }

  lemma RemovedUnder(s: Settings, underWay: map<Context, int>, c: Context, ip: string)
    requires c in underWay
    ensures |Under(s, underWay - {c}, ip)| == |Under(s, underWay, ip)| - if ClientIp(s, c, underWay[c]) == ip then 1 else 0
  {
    hide ClientIp;
    var before, after := Under(s, underWay, ip), Under(s, underWay - {c}, ip);
    assert after == if ClientIp(s, c, underWay[c]) == ip then before - {c} else before;
  }

  /** One turn: what the address holds, and the logins under way it may still have to count. */
  lemma TurnCounts(s: Settings, rules: seq<L.Rule>, login: L.Rule, l: L.Limits, t: Turn, underWay: map<Context, int>,
                   ip: string)
    requires LoginRule(rules, login) && Routed(EventOf(s, t).request) && IsAddress(ip)
    requires LetInAt(s, rules, l, t) ==> t.context !in underWay
    requires AnswersLogin(s, t) ==> t.context in underWay
    ensures var f, f' := Failures(l, login, ip, t.now), Failures(Stepped(rules, l, EventOf(s, t)), login, ip, t.now);
            var u, u' := |Under(s, underWay, ip)|, |Under(s, UnderWayAfter(s, rules, l, t, underWay), ip)|;
            || f' + u' <= f + u + (if Strays(s, t, underWay, ip) then 1 else 0)
            || (f' <= login.requests - 1 && !Strays(s, t, underWay, ip))
  {
    hide Failures;
    hide LoginRule;
    hide Routed;
    hide Stepped;
    hide Under;
    hide ClientIp;
    hide RefusesCsrf;
    var e := EventOf(s, t);
    EventCounts(rules, login, l, e, ip);
    if LetInAt(s, rules, l, t) {
      AddedUnder(s, underWay, t.context, t.now, ip);
    } else if AnswersLogin(s, t) {
      RemovedUnder(s, underWay, t.context, ip);
    }
  }

  /**
   * Main result: an address's bucket never holds more than `requests - 1` failures, the logins let in under it that were
   * under way at once, and the logins let in under another address whose failure was counted here.
   */
  lemma {:induction false} FailuresAreBounded(s: Settings, rules: seq<L.Rule>, login: L.Rule, l: L.Limits, turns: seq<Turn>,
                                              from: int, underWay: map<Context, int>, ip: string, most: nat, strays: nat)
    requires LoginRule(rules, login) && IsAddress(ip)
    requires AllRouted(EventsOf(s, turns)) && Timely(EventsOf(s, turns), from)
    requires Linked(s, rules, l, turns, underWay) && AtMost(s, rules, l, turns, underWay, ip, most)
    requires Failures(l, login, ip, from) + |Under(s, underWay, ip)| <= login.requests - 1 + most + strays
    ensures forall now :: LastTime(EventsOf(s, turns), from) <= now ==>
              Failures(GuardAfter(rules, l, EventsOf(s, turns)), login, ip, now)
              <= login.requests - 1 + most + strays + StrayCount(s, rules, l, turns, underWay, ip)
    decreases |turns|
  {
    hide Stepped;
    hide Failures;
    hide LoginRule;
    hide Routed;
    hide UnderWayAfter;
    hide Under;
    hide Strays;
    hide EventOf;
    if turns != [] {
      var t := turns[0];
      var events := EventsOf(s, turns);
      EventNow(s, t);
      assert events[0] == EventOf(s, t) && events[1..] == EventsOf(s, turns[1..]);
      assert forall i :: 0 <= i < |events[1..]| ==> events[1..][i] == events[i + 1];
      FailuresFade(l, login, ip, from, t.now);
      TurnCounts(s, rules, login, l, t, underWay, ip);
      FailuresAreBounded(s, rules, login, Stepped(rules, l, EventOf(s, t)), turns[1..], t.now,
                         UnderWayAfter(s, rules, l, t, underWay), ip, most,
                         strays + if Strays(s, t, underWay, ip) then 1 else 0);
    } else {
      forall now | from <= now
        ensures Failures(l, login, ip, now) <= Failures(l, login, ip, from)
      {
        FailuresFade(l, login, ip, from, now);
      }
    }
  }

  lemma EventNow(s: Settings, t: Turn)
    ensures EventOf(s, t).now == t.now
  {}

  // -------------------------------------------------------------------------------------------------------------
  // Exactly when the failures are bounded
  // -------------------------------------------------------------------------------------------------------------

  /** The request was let in under an attested address, and its token verifies no more when it is answered. */
  predicate Lapses(s: Settings, t: Turn, underWay: map<Context, int>) {
    && AnswersLogin(s, t) && t.context in underWay
    && Attested(s, t.context, underWay[t.context]).Some? && Attested(s, t.context, t.now).None?
  }

  ghost predicate NoneLapses(s: Settings, rules: seq<L.Rule>, l: L.Limits, turns: seq<Turn>, underWay: map<Context, int>)
    decreases |turns|
  {
    turns != [] ==>
      && !Lapses(s, turns[0], underWay)
      && NoneLapses(s, rules, Stepped(rules, l, EventOf(s, turns[0])), turns[1..],
                    UnderWayAfter(s, rules, l, turns[0], underWay))
  }

  /** Without a lapse a request keeps its address: a token that was dead stays so, and a live one attests one address. */
  lemma AddressStays(s: Settings, c: Context, then_: int, now: int)
    requires ShopperAttestation.IsMac(s.mac) && then_ <= now
    requires Attested(s, c, then_).Some? ==> Attested(s, c, now).Some?
    ensures ClientIp(s, c, then_) == ClientIp(s, c, now)
  {
    hide ShopperAttestation.Verify;
    hide ShopperAttestation.IsMac;
    if c.token.Some? && Attested(s, c, now).Some? {
      ShopperAttestation.StaysExpired(s.mac, c.token.value, Attested(s, c, now).value, then_, now);
    }
  }

  lemma {:induction false} NoLapseNoStray(s: Settings, rules: seq<L.Rule>, l: L.Limits, turns: seq<Turn>, from: int,
                                          underWay: map<Context, int>, ip: string)
    requires ShopperAttestation.IsMac(s.mac) && Timely(EventsOf(s, turns), from)
    requires NoneLapses(s, rules, l, turns, underWay) && forall c :: c in underWay ==> underWay[c] <= from
    ensures StrayCount(s, rules, l, turns, underWay, ip) == 0
    decreases |turns|
  {
    hide Attested;
    hide Stepped;
    hide ShopperAttestation.IsMac;
    if turns != [] {
      var t := turns[0];
      EventNow(s, t);
      assert EventsOf(s, turns)[1..] == EventsOf(s, turns[1..]);
      if t.context in underWay && AnswersLogin(s, t) {
        AddressStays(s, t.context, underWay[t.context], t.now);
      }
      NoLapseNoStray(s, rules, Stepped(rules, l, EventOf(s, t)), turns[1..], t.now,
                     UnderWayAfter(s, rules, l, t, underWay), ip);
    }
  }

  /** A run of the guard from a fresh limiter, with at most `most` logins let in under `ip` under way at once. */
  ghost predicate IsRun(s: Settings, rules: seq<L.Rule>, login: L.Rule, turns: seq<Turn>, from: int, ip: string, most: nat) {
    && ShopperAttestation.IsMac(s.mac) && LoginRule(rules, login) && IsAddress(ip)
    && AllRouted(EventsOf(s, turns)) && Timely(EventsOf(s, turns), from)
    && Linked(s, rules, L.FRESH, turns, map[]) && AtMost(s, rules, L.FRESH, turns, map[], ip, most)
  }

  ghost predicate Bounded(s: Settings, rules: seq<L.Rule>, login: L.Rule, turns: seq<Turn>, from: int, ip: string, most: nat) {
    forall now :: LastTime(EventsOf(s, turns), from) <= now ==>
      Failures(GuardAfter(rules, L.FRESH, EventsOf(s, turns)), login, ip, now) <= login.requests - 1 + most
  }

  ghost predicate AlwaysBounded(mayLapse: bool) {
    forall s, rules, login, turns, from, ip, most |
      IsRun(s, rules, login, turns, from, ip, most) && (mayLapse || NoneLapses(s, rules, L.FRESH, turns, map[])) ::
      Bounded(s, rules, login, turns, from, ip, most)
  }

  /** Without a lapse the bound is the requests less one and the logins of the address under way. */
  lemma BoundedWithoutLapse(s: Settings, rules: seq<L.Rule>, login: L.Rule, turns: seq<Turn>, from: int, ip: string, most: nat)
    requires IsRun(s, rules, login, turns, from, ip, most) && NoneLapses(s, rules, L.FRESH, turns, map[])
    ensures Bounded(s, rules, login, turns, from, ip, most)
  {
    hide Linked;
    hide AtMost;
    hide NoneLapses;
    hide GuardAfter;
    assert Under(s, map[], ip) == {};
    NoLapseNoStray(s, rules, L.FRESH, turns, from, map[], ip);
    FailuresAreBounded(s, rules, login, L.FRESH, turns, from, map[], ip, most, 0);
  }

  /** A login from `peer` whose attestation of another address expires at `expires`. */
  function Forwarded(s: Settings, id: nat, peer: string, shopper: string, expires: nat): Context {
    Context(id, "POST", LOGIN_PATH, peer, Some(ShopperAttestation.Sign(s.mac, shopper, expires)), {}, "", None, "", "", false)
  }

  lemma ForwardedUntil(s: Settings, id: nat, peer: string, shopper: string, expires: nat, now: int)
    requires ShopperAttestation.IsMac(s.mac) && shopper != "" && '~' !in shopper
    requires expires <= ShopperAttestation.MAX_SAFE_INTEGER
    ensures Attested(s, Forwarded(s, id, peer, shopper, expires), now) == if now < expires then Some(shopper) else None
  {
    hide ShopperAttestation.Sign;
    ShopperAttestation.SignedVerifiesUntil(s.mac, shopper, expires, now);
  }

  /** A rule for the login path is met by it. */
  lemma OwnRuleApplies(rule: L.Rule)
    requires rule.pattern == LOGIN_PATH && rule.header.None? && rule.requests > 0
    ensures LoginRule([rule], rule)
  {
    PathsArePlain();
    PlainPatternAccepts(LOGIN_PATH, LOGIN_PATH);
    NoPlaceholderIn(LOGIN_PATH);
    PathPattern.PathPatternAccepts(LOGIN_PATH, LOGIN_PATH);
    LoginPathHasNoBar();
  }

  lemma NoFailures(login: L.Rule, ip: string)
    ensures Failures(L.FRESH, login, ip, 0) == 0 && Failures(L.FRESH, login, ip, 1) == 0
  {}

  function LoginFrom(ip: string): Request { Request("POST", LOGIN_PATH, ip, {}, "", None, false) }

  /** What the guard reads of a forwarded login before its attestation expires, and after. */
  lemma ForwardedTurns(s: Settings, id: nat, peer: string, shopper: string)
    requires ShopperAttestation.IsMac(s.mac) && !s.csrf && shopper != "" && '~' !in shopper
    ensures var c := Forwarded(s, id, peer, shopper, 1);
            && ClientIp(s, c, 0) == shopper && ClientIp(s, c, 1) == peer
            && Seen(s, c, 0) == LoginFrom(shopper) && Seen(s, c, 1) == LoginFrom(peer)
  {
    hide Attested;
    ForwardedUntil(s, id, peer, shopper, 1, 0);
    ForwardedUntil(s, id, peer, shopper, 1, 1);
  }

  /** A login whose address is short of the count is let in, and counts nothing. */
  lemma LetsIn(s: Settings, rules: seq<L.Rule>, login: L.Rule, l: L.Limits, t: Turn, ip: string)
    requires LoginRule(rules, login) && t.Admits? && IsLogin(EventOf(s, t).request) && EventOf(s, t).request.ip == ip
    requires !EventOf(s, t).request.csrfRefused && Failures(l, login, ip, t.now) < login.requests
    ensures LetInAt(s, rules, l, t) && Stepped(rules, l, EventOf(s, t)) == l
  {
    hide L.RuleFor;
    OneOp(rules, l, L.Full(LOGIN_PATH, [ip]), t.now);
    assert L.DecideFull(l, login, [ip], t.now).allowed;
  }

  lemma FailureAdds(rules: seq<L.Rule>, login: L.Rule, l: L.Limits, e: Event, ip: string)
    requires LoginRule(rules, login) && FailedLogin(e, ip) && e.request.account.None? && login.windowMs > 0
    ensures Failures(Stepped(rules, l, e), login, ip, e.now) == Failures(l, login, ip, e.now) + 1
  {
    hide L.RuleFor;
    OneOp(rules, l, L.Hit(LOGIN_PATH, [ip]), e.now);
    assert [ip] + [] == [ip];
    OneKey(l, login, [ip], e.now);
  }

  /** The turns are a run from there, with no login under `ip` under way at any moment, and end at `end` and `last`. */
  ghost predicate RunsTo(s: Settings, rules: seq<L.Rule>, l: L.Limits, turns: seq<Turn>, underWay: map<Context, int>,
                         from: int, ip: string, end: L.Limits, last: int) {
    var events := EventsOf(s, turns);
    && Linked(s, rules, l, turns, underWay) && AtMost(s, rules, l, turns, underWay, ip, 0)
    && AllRouted(events) && Timely(events, from)
    && GuardAfter(rules, l, events) == end && LastTime(events, from) == last
  }

  lemma RunEnds(s: Settings, rules: seq<L.Rule>, l: L.Limits, underWay: map<Context, int>, ip: string, from: int)
    requires Under(s, underWay, ip) == {}
    ensures RunsTo(s, rules, l, [], underWay, from, ip, l, from)
  {}

  lemma EventsNext(s: Settings, rules: seq<L.Rule>, l: L.Limits, t: Turn, rest: seq<Turn>, from: int)
    requires Routed(EventOf(s, t).request) && AllRouted(EventsOf(s, rest))
    requires from <= t.now && Timely(EventsOf(s, rest), t.now)
    ensures var events := EventsOf(s, [t] + rest);
            && AllRouted(events) && Timely(events, from)
            && GuardAfter(rules, l, events) == GuardAfter(rules, Stepped(rules, l, EventOf(s, t)), EventsOf(s, rest))
            && LastTime(events, from) == LastTime(EventsOf(s, rest), t.now)
  {
    hide Stepped;
    hide EventOf;
    hide Routed;
    EventNow(s, t);
    var events := EventsOf(s, [t] + rest);
    assert ([t] + rest)[1..] == rest;
    assert events == [EventOf(s, t)] + EventsOf(s, rest) && events[1..] == EventsOf(s, rest);
  }

  lemma TurnNext(s: Settings, rules: seq<L.Rule>, l: L.Limits, t: Turn, rest: seq<Turn>, underWay: map<Context, int>,
                 from: int, ip: string, end: L.Limits, last: int)
    requires Under(s, underWay, ip) == {} && from <= t.now && Routed(EventOf(s, t).request)
    requires (LetInAt(s, rules, l, t) ==> t.context !in underWay) && (AnswersLogin(s, t) ==> t.context in underWay)
    requires RunsTo(s, rules, Stepped(rules, l, EventOf(s, t)), rest, UnderWayAfter(s, rules, l, t, underWay), t.now, ip,
                    end, last)
    ensures RunsTo(s, rules, l, [t] + rest, underWay, from, ip, end, last)
  {
    hide Stepped;
    hide EventOf;
    hide EventsOf;
    hide GuardAfter;
    hide Timely;
    hide Routed;
    hide Under;
    hide LetInAt;
    hide AnswersLogin;
    hide UnderWayAfter;
    EventsNext(s, rules, l, t, rest, from);
    assert ([t] + rest)[1..] == rest;
  }

  /** Two logins are let in under their own addresses and fail under the peer's, which then holds both failures. */
  lemma TwoLapse(s: Settings, login: L.Rule, peer: string, a: Context, b: Context, first: string, second: string)
    returns (turns: seq<Turn>, end: L.Limits)
    requires LoginRule([login], login) && login.requests == 1 && login.windowMs > 0 && a != b
    requires peer != first && peer != second && IsAddress(peer) && IsAddress(first) && IsAddress(second)
    requires ClientIp(s, a, 0) == first && ClientIp(s, b, 0) == second && ClientIp(s, a, 1) == ClientIp(s, b, 1) == peer
    requires Seen(s, a, 0) == LoginFrom(first) && Seen(s, a, 1) == LoginFrom(peer)
    requires Seen(s, b, 0) == LoginFrom(second) && Seen(s, b, 1) == LoginFrom(peer)
    ensures RunsTo(s, [login], L.FRESH, turns, map[], 0, peer, end, 1) && Failures(end, login, peer, 1) == 2
  {
    hide Failures;
    hide LoginRule;
    hide RunsTo;
    hide Stepped;
    hide ClientIp;
    hide Seen;
    hide IsAddress;
    hide Admission;
    var rules := [login];
    NoFailures(login, first);
    NoFailures(login, second);
    NoFailures(login, peer);
    var t0, t1, t2, t3 := Admits(a, 0), Admits(b, 0), Finishes(a, 401, 1), Finishes(b, 401, 1);
    var l3 := Stepped(rules, L.FRESH, EventOf(s, t2));
    end := Stepped(rules, l3, EventOf(s, t3));
    LetsIn(s, rules, login, L.FRESH, t0, first);
    LetsIn(s, rules, login, L.FRESH, t1, second);
    FailureAdds(rules, login, L.FRESH, EventOf(s, t2), peer);
    FailureAdds(rules, login, l3, EventOf(s, t3), peer);
    var u1: map<Context, int> := map[a := 0];
    var u2: map<Context, int> := u1[b := 0];
    var u3: map<Context, int> := u2 - {a};
    var u4: map<Context, int> := u3 - {b};
    RunEnds(s, rules, end, u4, peer, 1);
    TurnNext(s, rules, l3, t3, [], u3, 1, peer, end, 1);
    TurnNext(s, rules, L.FRESH, t2, [t3] + [], u2, 0, peer, end, 1);
    TurnNext(s, rules, L.FRESH, t1, [t2] + ([t3] + []), u1, 0, peer, end, 1);
    turns := [t0] + ([t1] + ([t2] + ([t3] + [])));
    assert map[][a := 0] == u1;
    TurnNext(s, rules, L.FRESH, t0, [t1] + ([t2] + ([t3] + [])), map[], 0, peer, end, 1);
  }

  /**
   * Two shoppers' logins come through one peer while their attestations last, and are answered as failures when they
   * have expired: both count under the peer, which no login was let in under, though the rule allows one.
   */
  lemma LapsedLoginsAddUp(s: Settings, login: L.Rule, peer: string, first: string, second: string)
    returns (turns: seq<Turn>)
    requires ShopperAttestation.IsMac(s.mac) && !s.csrf
    requires login.pattern == LOGIN_PATH && login.header.None? && login.requests == 1 && login.windowMs > 0
    requires IsAddress(peer) && IsAddress(first) && IsAddress(second) && first != "" && second != ""
    requires '~' !in first && '~' !in second && peer != first && peer != second
    ensures IsRun(s, [login], login, turns, 0, peer, 0) && !Bounded(s, [login], login, turns, 0, peer, 0)
  {
    hide Failures;
    hide LoginRule;
    hide GuardAfter;
    hide Timely;
    hide Linked;
    hide AtMost;
    hide Seen;
    hide ClientIp;
    hide EventsOf;
    hide AllRouted;
    hide IsAddress;
    hide LastTime;
    OwnRuleApplies(login);
    ForwardedTurns(s, 0, peer, first);
    ForwardedTurns(s, 1, peer, second);
    var end;
    turns, end := TwoLapse(s, login, peer, Forwarded(s, 0, peer, first, 1), Forwarded(s, 1, peer, second, 1), first, second);
  }

  lemma DigitsAreAddresses(ip: string)
    requires ip != "" && ip[0] == '1' && '|' !in ip
    ensures IsAddress(ip)
  {
    assert "account:"[0] == 'a';
  }

  /**
   * Main result: no address ever holds more failures than the requests less one and its logins under way, in any run, if and
   * only if no login's attestation expires between its two turns.
   */
  lemma BoundedExactly(mayLapse: bool)
    ensures AlwaysBounded(mayLapse) <==> !mayLapse
  {
    hide IsRun;
    hide Bounded;
    hide NoneLapses;
    if mayLapse {
      var s, login := Settings(_ => "mac", false), L.Rule(LOGIN_PATH, None, 1, 60000, L.Block);
      DigitsAreAddresses("127.0.0.1");
      DigitsAreAddresses("1.2.3.4");
      DigitsAreAddresses("1.2.3.5");
      var turns := LapsedLoginsAddUp(s, login, "127.0.0.1", "1.2.3.4", "1.2.3.5");
    } else {
      forall s, rules, login, turns, from, ip, most |
        IsRun(s, rules, login, turns, from, ip, most) && NoneLapses(s, rules, L.FRESH, turns, map[])
        ensures Bounded(s, rules, login, turns, from, ip, most)
      {
        BoundedWithoutLapse(s, rules, login, turns, from, ip, most);
      }
    }
  }

  // -------------------------------------------------------------------------------------------------------------
  // Accounts and successes change no admission
  // -------------------------------------------------------------------------------------------------------------

  predicate IsAccountBucket(key: string) { LOGIN_PATH + "|account:" <= key }

  /** The same live buckets, those of accounts aside. */
  ghost predicate SameButAccounts(l: L.Limits, u: L.Limits, now: int) {
    forall k | !IsAccountBucket(k) ::
      && (L.IsLive(l.buckets, k, now) <==> L.IsLive(u.buckets, k, now))
      && (L.IsLive(l.buckets, k, now) ==> l.buckets[k] == u.buckets[k])
  }

  lemma SameLater(l: L.Limits, u: L.Limits, now: int, later: int)
    requires SameButAccounts(l, u, now) && now <= later
    ensures SameButAccounts(l, u, later)
  {
    forall k | !IsAccountBucket(k)
      ensures (L.IsLive(l.buckets, k, later) <==> L.IsLive(u.buckets, k, later))
              && (L.IsLive(l.buckets, k, later) ==> l.buckets[k] == u.buckets[k])
    {
      assert L.IsLive(l.buckets, k, now) <==> L.IsLive(u.buckets, k, now);
    }
  }

  lemma CountedAlike(l: L.Limits, u: L.Limits, key: string, now: int, windowMs: nat)
    requires SameButAccounts(l, u, now) && !IsAccountBucket(key)
    ensures SameButAccounts(L.Counted(l, key, now, windowMs), L.Counted(u, key, now, windowMs), now)
    ensures L.Counted(l, key, now, windowMs).buckets[key] == L.Counted(u, key, now, windowMs).buckets[key]
  {
    var l', u' := L.Counted(l, key, now, windowMs), L.Counted(u, key, now, windowMs);
    assert L.IsLive(l.buckets, key, now) <==> L.IsLive(u.buckets, key, now);
    forall k | !IsAccountBucket(k)
      ensures (L.IsLive(l'.buckets, k, now) <==> L.IsLive(u'.buckets, k, now))
              && (L.IsLive(l'.buckets, k, now) ==> l'.buckets[k] == u'.buckets[k])
    {
      assert L.IsLive(l.buckets, k, now) <==> L.IsLive(u.buckets, k, now);
    }
  }

  lemma AccountCountChangesNoOther(l: L.Limits, u: L.Limits, key: string, now: int, windowMs: nat)
    requires SameButAccounts(l, u, now) && IsAccountBucket(key)
    ensures SameButAccounts(L.Counted(l, key, now, windowMs), u, now)
  {
    var l' := L.Counted(l, key, now, windowMs);
    forall k | !IsAccountBucket(k)
      ensures (L.IsLive(l'.buckets, k, now) <==> L.IsLive(u.buckets, k, now))
              && (L.IsLive(l'.buckets, k, now) ==> l'.buckets[k] == u.buckets[k])
    {
      assert L.IsLive(l.buckets, k, now) <==> L.IsLive(u.buckets, k, now);
    }
  }

  /** A bar parts two texts in one way. */
  lemma BarParts(p: string, x: string, q: string, y: string)
    requires '|' !in p && '|' !in q
    ensures q + "|" + y <= p + "|" + x <==> p == q && y <= x
  {
    var whole, prefix, m, n := p + "|" + x, q + "|" + y, |q|, |p|;
    assert whole[n] == '|' && prefix[m] == '|';
    assert forall i :: 0 <= i < n ==> whole[i] == p[i] && whole[i] in p;
    assert forall i :: 0 <= i < m ==> prefix[i] == q[i] && prefix[i] in q;
    assert whole[n + 1..] == x && prefix[m + 1..] == y;
    if prefix <= whole {
      assert forall i :: 0 <= i < |prefix| ==> whole[i] == prefix[i];
      assert n == m;
      assert p == whole[..n] == prefix[..n] == q;
      assert y == prefix[m + 1..] == whole[..|prefix|][m + 1..] == x[..|y|];
    }
    if p == q && y <= x {
      assert whole == prefix + x[|y|..];
    }
  }

  /** A bucket of an account is one of the login rule's, under an account key. */
  lemma AccountBuckets(rule: L.Rule, key: string)
    requires '|' !in rule.pattern
    ensures IsAccountBucket(L.BucketKey(rule, key)) <==> rule.pattern == LOGIN_PATH && "account:" <= key
  {
    LoginPathHasNoBar();
    BarParts(rule.pattern, key, LOGIN_PATH, "account:");
    assert LOGIN_PATH + "|account:" == LOGIN_PATH + "|" + "account:";
  }

  lemma LoginPathHasNoBar()
    ensures '|' !in LOGIN_PATH
  {}

  lemma OneKey(l: L.Limits, rule: L.Rule, keys: seq<string>, now: int)
    requires |keys| == 1
    ensures L.AllCounted(l, rule, keys, now) == L.Counted(l, L.BucketKey(rule, keys[0]), now, rule.windowMs)
    ensures L.Cleared(l, rule, keys) == l.(buckets := l.buckets - {L.BucketKey(rule, keys[0])})
  {
    assert keys[1..] == [];
  }

  /** The outcome with the account taken out: what is left counts a failure of the address, or nothing. */
  function Anonymous(e: Event): Event {
    if e.Finish? then e.(request := e.request.(account := None)) else e
  }

  /** What the guard answers to the requests of a trace. */
  function Admissions(rules: seq<L.Rule>, l: L.Limits, trace: seq<Event>): seq<Option<Refusal>>
    decreases |trace|
  {
    if trace == [] then []
    else
      (if trace[0].Admit? then [Admission(rules, l, trace[0].request, trace[0].now)] else [])
      + Admissions(rules, Stepped(rules, l, trace[0]), trace[1..])
  }

  predicate SuccessfulLogin(e: Event) { e.Finish? && IsLogin(e.request) && 200 <= e.status < 300 }

  /** The trace without its successful logins' outcomes, and with no account in the failed ones'. */
  function Plain(trace: seq<Event>): seq<Event> {
    if trace == [] then []
    else (if SuccessfulLogin(trace[0]) then [] else [Anonymous(trace[0])]) + Plain(trace[1..])
  }

  /** One check alike on both sides. */
  lemma CheckedAlike(rules: seq<L.Rule>, login: L.Rule, l: L.Limits, u: L.Limits, op: L.Op, now: int)
    requires LoginRule(rules, login) && SameButAccounts(l, u, now) && op.Check? && op.path != LOGIN_PATH
    ensures L.Applied(rules, l, op, now).1 == L.Applied(rules, u, op, now).1
    ensures SameButAccounts(L.Applied(rules, l, op, now).0, L.Applied(rules, u, op, now).0, now)
  {
    hide L.RuleFor;
    var rule := L.OpRule(rules, op);
    if rule.Some? {
      PathsArePlain();
      OtherPathsOtherBuckets(rules, login, op.path, op.headers, op.key, op.key);
      RuleForApplies(rules, op.path, op.headers);
      AccountBuckets(rule.value, op.key);
      var key := L.BucketKey(rule.value, op.key);
      assert !IsAccountBucket(key) && (L.IsLive(l.buckets, key, now) <==> L.IsLive(u.buckets, key, now));
      CountedAlike(l, u, key, now, rule.value.windowMs);
    }
  }

  lemma AdmittedAlike(rules: seq<L.Rule>, login: L.Rule, l: L.Limits, u: L.Limits, e: Event)
    requires LoginRule(rules, login) && SameButAccounts(l, u, e.now) && e.Admit? && Routed(e.request)
    ensures Admission(rules, l, e.request, e.now) == Admission(rules, u, e.request, e.now)
    ensures SameButAccounts(Stepped(rules, l, e), Stepped(rules, u, e), e.now)
  {
    hide L.RuleFor;
    var r, now := e.request, e.now;
    var first := AdmitOps(rules, l, r, now)[0];
    assert first == AdmitOps(rules, u, r, now)[0];
    OneOp(rules, l, first, now);
    OneOp(rules, u, first, now);
    if IsLogin(r) {
      AccountBuckets(login, r.ip);
      assert L.IsLive(l.buckets, L.BucketKey(login, r.ip), now) <==> L.IsLive(u.buckets, L.BucketKey(login, r.ip), now);
      assert L.DecideFull(l, login, [r.ip], now) == L.DecideFull(u, login, [r.ip], now);
    } else {
      CheckedAlike(rules, login, l, u, first, now);
      if IsCheckout(r) && !Refuses(L.Applied(rules, l, first, now).1) {
        var second := L.Op.Check(PairKey(r), r.path, r.headers, 1);
        TwoOps(rules, l, first, second, now);
        TwoOps(rules, u, first, second, now);
        CheckedAlike(rules, login, L.Applied(rules, l, first, now).0, L.Applied(rules, u, first, now).0, second, now);
      }
    }
  }

  lemma FailedAlike(rules: seq<L.Rule>, login: L.Rule, l: L.Limits, u: L.Limits, e: Event)
    requires LoginRule(rules, login) && SameButAccounts(l, u, e.now) && e.Finish? && Routed(e.request)
    requires IsLogin(e.request) && !SuccessfulLogin(e)
    ensures SameButAccounts(Stepped(rules, l, e), Stepped(rules, u, Anonymous(e)), e.now)
  {
    hide L.RuleFor;
    var r, now := e.request, e.now;
    AccountBuckets(login, r.ip);
    var key := L.BucketKey(login, r.ip);
    CountedAlike(l, u, key, now, login.windowMs);
    var l1, u1 := L.Counted(l, key, now, login.windowMs), L.Counted(u, key, now, login.windowMs);
    OneOp(rules, l, L.Hit(r.path, [r.ip] + AccountKeys(r)), now);
    OneOp(rules, u, L.Hit(r.path, [r.ip] + []), now);
    assert ([r.ip] + AccountKeys(r))[1..] == AccountKeys(r) && ([r.ip] + [])[1..] == [];
    assert Stepped(rules, u, Anonymous(e)) == L.AllCounted(u1, login, [], now) == u1;
    assert Stepped(rules, l, e) == L.AllCounted(l1, login, AccountKeys(r), now);
    if AccountKeys(r) != [] {
      var account := AccountKeys(r)[0];
      AccountBuckets(login, account);
      OneKey(l1, login, AccountKeys(r), now);
      AccountCountChangesNoOther(l1, u1, L.BucketKey(login, account), now, login.windowMs);
    }
  }

  lemma SuccessChangesNoOther(rules: seq<L.Rule>, login: L.Rule, l: L.Limits, u: L.Limits, e: Event)
    requires LoginRule(rules, login) && SameButAccounts(l, u, e.now) && SuccessfulLogin(e)
    ensures SameButAccounts(Stepped(rules, l, e), u, e.now)
  {
    hide L.RuleFor;
    var r, l' := e.request, Stepped(rules, l, e);
    OneOp(rules, l, L.Clear(r.path, AccountKeys(r)), e.now);
    if AccountKeys(r) != [] {
      AccountBuckets(login, AccountKeys(r)[0]);
      OneKey(l, login, AccountKeys(r), e.now);
      assert l' == l.(buckets := l.buckets - {L.BucketKey(login, AccountKeys(r)[0])});
    }
    forall k | !IsAccountBucket(k)
      ensures (L.IsLive(l'.buckets, k, e.now) <==> L.IsLive(u.buckets, k, e.now))
              && (L.IsLive(l'.buckets, k, e.now) ==> l'.buckets[k] == u.buckets[k])
    {
      assert L.IsLive(l.buckets, k, e.now) <==> L.IsLive(u.buckets, k, e.now);
    }
  }

  /**
   * Main result: what the guard admits is the same with every account left out of the failed logins' outcomes, and the
   * successful ones left out altogether.
   */
  lemma {:induction false} AccountsNeverChangeAdmissions(rules: seq<L.Rule>, login: L.Rule, l: L.Limits, u: L.Limits,
                                                         trace: seq<Event>, from: int)
    requires LoginRule(rules, login) && AllRouted(trace) && Timely(trace, from) && SameButAccounts(l, u, from)
    ensures Admissions(rules, l, trace) == Admissions(rules, u, Plain(trace))
    decreases |trace|
  {
    if trace != [] {
      var e := trace[0];
      assert e.request == trace[0].request && forall i :: 0 <= i < |trace[1..]| ==> trace[1..][i] == trace[i + 1];
      SameLater(l, u, from, e.now);
      var l' := Stepped(rules, l, e);
      if SuccessfulLogin(e) {
        SuccessChangesNoOther(rules, login, l, u, e);
        AccountsNeverChangeAdmissions(rules, login, l', u, trace[1..], e.now);
        assert Plain(trace) == Plain(trace[1..]);
      } else {
        var u' := Stepped(rules, u, Anonymous(e));
        if e.Admit? {
          AdmittedAlike(rules, login, l, u, e);
        } else if IsLogin(e.request) {
          FailedAlike(rules, login, l, u, e);
        }
        AccountsNeverChangeAdmissions(rules, login, l', u', trace[1..], e.now);
        assert Plain(trace)[0] == Anonymous(e) && Plain(trace)[1..] == Plain(trace[1..]);
      }
    }
  }

  // -------------------------------------------------------------------------------------------------------------
  // The cart buckets of one address
  // -------------------------------------------------------------------------------------------------------------

  /** The checkout path has a rule of its own, which any request to it meets; no pattern has a bar. */
  ghost predicate CheckoutRule(rules: seq<L.Rule>, rule: L.Rule) {
    && rule.pattern == CHECKOUT_PATH && rule in rules
    && (forall headers :: L.RuleFor(rules, CHECKOUT_PATH, headers) == Some(rule))
    && forall r :: r in rules ==> '|' !in r.pattern
  }

  /** The only route at the checkout path is the checkout too. */
  predicate AllAtTheirRoutes(trace: seq<Event>) {
    forall i :: 0 <= i < |trace| ==>
      Routed(trace[i].request) && (trace[i].request.path == CHECKOUT_PATH ==> trace[i].request.method_ == "POST")
  }

  predicate CheckoutOf(e: Event, ip: string) { e.Admit? && IsCheckout(e.request) && e.request.ip == ip }

  /** The checkout gets past its address and finds no live bucket for its cart. */
  predicate OpensCart(rules: seq<L.Rule>, checkout: L.Rule, l: L.Limits, e: Event) {
    var ops := AdmitOps(rules, l, e.request, e.now);
    && |ops| == 2
    && !L.IsLive(L.Applied(rules, l, ops[0], e.now).0.buckets, L.BucketKey(checkout, PairKey(e.request)), e.now)
  }

  function CartsOpened(rules: seq<L.Rule>, checkout: L.Rule, l: L.Limits, trace: seq<Event>, ip: string): nat
    decreases |trace|
  {
    if trace == [] then 0
    else
      (if CheckoutOf(trace[0], ip) && OpensCart(rules, checkout, l, trace[0]) then 1 else 0)
      + CartsOpened(rules, checkout, Stepped(rules, l, trace[0]), trace[1..], ip)
  }

  /** No other operation counts under the address: a cart's key has a bar, an address has none. */
  lemma OthersSpareTheCeiling(rules: seq<L.Rule>, checkout: L.Rule, op: L.Op, now: int, ip: string)
    requires CheckoutRule(rules, checkout) && IsAddress(ip)
    requires match op
             case Check(key, path, _, _) => path == CHECKOUT_PATH ==> key != ip
             case Full(path, _) => true
             case Hit(path, _) => path != CHECKOUT_PATH
             case Clear(path, _) => path != CHECKOUT_PATH
             case Reset => false
    ensures !L.Touches(rules, L.Event(op, now), L.BucketKey(checkout, ip))
  {
    hide L.RuleFor;
    PathsArePlain();
    var rule := L.OpRule(rules, op);
    if rule.Some? && !op.Full? {
      var headers := if op.Check? then op.headers else {};
      var keys := if op.Check? then [op.key] else op.keys;
      forall k | k in keys
        ensures L.BucketKey(rule.value, k) != L.BucketKey(checkout, ip)
      {
        if op.path == CHECKOUT_PATH {
          L.BucketKeysAreDistinct(checkout, checkout, k, ip);
        } else {
          OtherPathsOtherBuckets(rules, checkout, op.path, headers, k, ip);
        }
      }
      assert op.Check? ==> op.key in keys;
    }
  }

  lemma OtherEventsSpareTheCeiling(rules: seq<L.Rule>, checkout: L.Rule, l: L.Limits, e: Event, ip: string)
    requires CheckoutRule(rules, checkout) && IsAddress(ip) && AllAtTheirRoutes([e]) && !CheckoutOf(e, ip)
    ensures Spare(rules, Ops(rules, l, e), e.now, L.BucketKey(checkout, ip))
  {
    assert [e][0] == e;
    forall op | op in Ops(rules, l, e)
      ensures !L.Touches(rules, L.Event(op, e.now), L.BucketKey(checkout, ip))
    {
      PairIsNoAddress(e.request, ip);
      OthersSpareTheCeiling(rules, checkout, op, e.now, ip);
    }
  }

  lemma PairIsNoAddress(r: Request, ip: string)
    requires IsAddress(ip)
    ensures PairKey(r) != ip
  {
    assert PairKey(r)[|r.ip|] == '|';
  }

  /** A checkout of the address, while its bucket is live: one more there, and a cart opened only within the ceiling. */
  lemma CheckoutCounts(rules: seq<L.Rule>, checkout: L.Rule, l: L.Limits, e: Event, ip: string, count: nat, resetAt: int)
    requires CheckoutRule(rules, checkout) && IsAddress(ip) && CheckoutOf(e, ip)
    requires L.Holds(l, L.BucketKey(checkout, ip), e.now, count, resetAt)
    ensures L.Holds(Stepped(rules, l, e), L.BucketKey(checkout, ip), e.now, count + 1, resetAt)
    ensures OpensCart(rules, checkout, l, e) ==> count + 1 <= checkout.requests * CHECKOUT_ADDRESS_CEILING
  {
    hide L.RuleFor;
    AddressThenCart(rules, checkout, l, e, ip);
  }

  /** What a checkout does to its address's bucket is what the check of the address does. */
  lemma AddressThenCart(rules: seq<L.Rule>, checkout: L.Rule, l: L.Limits, e: Event, ip: string)
    requires CheckoutRule(rules, checkout) && IsAddress(ip) && CheckoutOf(e, ip)
    ensures var address := L.Op.Check(ip, CHECKOUT_PATH, e.request.headers, CHECKOUT_ADDRESS_CEILING);
            var K := L.BucketKey(checkout, ip);
            var l1 := L.Applied(rules, l, address, e.now).0;
            var l2 := Stepped(rules, l, e);
            && l1 == L.Counted(l, K, e.now, checkout.windowMs)
            && (L.IsLive(l1.buckets, K, e.now) <==> L.IsLive(l2.buckets, K, e.now))
            && (L.IsLive(l1.buckets, K, e.now) ==> l2.buckets[K] == l1.buckets[K])
            && (OpensCart(rules, checkout, l, e) ==> L.Decide(l, checkout, ip, CHECKOUT_ADDRESS_CEILING, e.now).allowed)
  {
    hide L.RuleFor;
    var r, now := e.request, e.now;
    var address := L.Op.Check(ip, CHECKOUT_PATH, r.headers, CHECKOUT_ADDRESS_CEILING);
    assert L.OpRule(rules, address) == Some(checkout);
    OneOp(rules, l, address, now);
    var cart := L.Op.Check(PairKey(r), r.path, r.headers, 1);
    TwoOps(rules, l, address, cart, now);
    PairIsNoAddress(r, ip);
    OthersSpareTheCeiling(rules, checkout, cart, now, ip);
    L.UntouchedStays(rules, L.Applied(rules, l, address, now).0, L.Event(cart, now), L.BucketKey(checkout, ip));
  }

  predicate GuardUntil(trace: seq<Event>, last: int) { forall i :: 0 <= i < |trace| ==> trace[i].now <= last }

  lemma {:induction false} LiveWindowOpensCarts(rules: seq<L.Rule>, checkout: L.Rule, l: L.Limits, trace: seq<Event>,
                                                from: int, ip: string, count: nat, resetAt: int)
    requires CheckoutRule(rules, checkout) && IsAddress(ip) && AllAtTheirRoutes(trace) && Timely(trace, from)
    requires GuardUntil(trace, resetAt - 1) && l.buckets.Keys >= {L.BucketKey(checkout, ip)}
    requires l.buckets[L.BucketKey(checkout, ip)] == L.Bucket(count, resetAt)
    ensures CartsOpened(rules, checkout, l, trace, ip) <= L.Left(checkout.requests * CHECKOUT_ADDRESS_CEILING, count)
    decreases |trace|
  {
    if trace != [] {
      var e := trace[0];
      var l', K := Stepped(rules, l, e), L.BucketKey(checkout, ip);
      assert e.request == trace[0].request && forall i :: 0 <= i < |trace[1..]| ==> trace[1..][i] == trace[i + 1];
      assert L.Holds(l, K, e.now, count, resetAt);
      if CheckoutOf(e, ip) {
        CheckoutCounts(rules, checkout, l, e, ip, count, resetAt);
        LiveWindowOpensCarts(rules, checkout, l', trace[1..], e.now, ip, count + 1, resetAt);
      } else {
        OtherEventsSpareTheCeiling(rules, checkout, l, e, ip);
        SparedStays(rules, l, Ops(rules, l, e), e.now, K);
        LiveWindowOpensCarts(rules, checkout, l', trace[1..], e.now, ip, count, resetAt);
      }
    }
  }

  /**
   * Main result: in one window of an address, from the checkout that opens it on, the address's checkouts open at most
   * the ceiling times `requests` cart buckets, whatever carts they name.
   */
  lemma WindowOpensAtMostCeilingCarts(rules: seq<L.Rule>, checkout: L.Rule, l: L.Limits, trace: seq<Event>, ip: string)
    requires CheckoutRule(rules, checkout) && IsAddress(ip) && AllAtTheirRoutes(trace)
    requires trace != [] && Timely(trace, trace[0].now) && CheckoutOf(trace[0], ip)
    requires !L.IsLive(l.buckets, L.BucketKey(checkout, ip), trace[0].now)
    requires checkout.windowMs > 0 && GuardUntil(trace, trace[0].now + checkout.windowMs - 1)
    ensures CartsOpened(rules, checkout, l, trace, ip) <= L.Max(1, checkout.requests * CHECKOUT_ADDRESS_CEILING)
  {
    var e := trace[0];
    assert e.request == trace[0].request && forall i :: 0 <= i < |trace[1..]| ==> trace[1..][i] == trace[i + 1];
    AddressThenCart(rules, checkout, l, e, ip);
    LiveWindowOpensCarts(rules, checkout, Stepped(rules, l, e), trace[1..], e.now, ip, 1, e.now + checkout.windowMs);
  }

  // -------------------------------------------------------------------------------------------------------------
  // What one turn does, in plain terms
  // -------------------------------------------------------------------------------------------------------------

  /** The request is refused for its rate. */
  predicate IsLimited(refusal: Option<Refusal>) { refusal.Some? && refusal.value.RateLimited? }

  /** Where a request comes from: the address its token attests then, and without a token that attests one its own. */
  lemma ClientIpExactly(s: Settings, c: Context, now: int, shopper: string)
    requires ShopperAttestation.IsMac(s.mac)
    ensures c.token.Some? && ShopperAttestation.Attests(s.mac, c.token.value, shopper, now) ==> ClientIp(s, c, now) == shopper
    ensures (forall ip :: c.token.Some? ==> !ShopperAttestation.Attests(s.mac, c.token.value, ip, now)) ==>
              ClientIp(s, c, now) == c.address
  {
    if c.token.Some? {
      forall ip
        ensures Attested(s, c, now) == Some(ip) <==> ShopperAttestation.Attests(s.mac, c.token.value, ip, now)
      {
        ShopperAttestation.VerifiesExactly(s.mac, c.token.value, ip, now);
      }
    }
  }

  /** A login is let in while its address holds fewer failures than the rule's count, and asking changes nothing. */
  lemma LoginLimitedExactly(s: Settings, rules: seq<L.Rule>, login: L.Rule, l: L.Limits, c: Context, now: int)
    requires LoginRule(rules, login) && c.method_ == "POST" && c.path == "/api/auth/login"
    ensures IsLimited(Admission(rules, l, Seen(s, c, now), now)) <==> L.Held(l, login, ClientIp(s, c, now), now) >= login.requests
    ensures Stepped(rules, l, EventOf(s, Admits(c, now))) == l
  {
    hide L.RuleFor;
    hide ClientIp;
    hide RefusesCsrf;
    var ip := ClientIp(s, c, now);
    OneOp(rules, l, L.Full(LOGIN_PATH, [ip]), now);
    L.FullAdmitsExactly(l, login, [ip], now);
    assert ip in [ip];
  }

  lemma PairKeyIs(s: Settings, c: Context, now: int)
    ensures PairKey(Seen(s, c, now)) == ClientIp(s, c, now) + "|cart:" + c.cart
  {}

  /** Whether a check of the key at this scale is refused. */
  predicate Over(l: L.Limits, rule: L.Rule, key: string, scale: nat, now: int) {
    L.EndsAt(l, rule, key, now).Some? && L.Held(l, rule, key, now) + 1 > rule.requests * scale
  }

  lemma OneCheck(rules: seq<L.Rule>, rule: L.Rule, l: L.Limits, op: L.Op, now: int, other: string)
    requires op.Check? && L.OpRule(rules, op) == Some(rule) && rule.windowMs > 0
    ensures var (l', answer) := L.Applied(rules, l, op, now);
            && (Refuses(answer) <==> Over(l, rule, op.key, op.scale, now))
            && L.Held(l', rule, other, now) == L.Held(l, rule, other, now) + (if other == op.key then 1 else 0)
            && (other != op.key ==> L.EndsAt(l', rule, other, now) == L.EndsAt(l, rule, other, now))
  {
    hide L.RuleFor;
    L.CheckAdmitsExactly(l, rule, op.key, op.scale, now);
    L.CountedOne(l, rule, op.key, other, now);
  }

  /**
   * Main result: a checkout is refused exactly when its address is over ten allowances of the checkout rule, or its cart at
   * that address over one; the address counts it, and the cart unless the address was over.
   */
  lemma CheckoutLimitedExactly(s: Settings, rules: seq<L.Rule>, checkout: L.Rule, l: L.Limits, c: Context, now: int)
    requires CheckoutRule(rules, checkout) && checkout.windowMs > 0 && c.method_ == "POST" && c.path == "/api/checkout"
    ensures var ip, pair := ClientIp(s, c, now), ClientIp(s, c, now) + "|cart:" + c.cart;
            var l' := Stepped(rules, l, EventOf(s, Admits(c, now)));
            && (IsLimited(Admission(rules, l, Seen(s, c, now), now)) <==>
                Over(l, checkout, ip, 10, now) || Over(l, checkout, pair, 1, now))
            && L.Held(l', checkout, ip, now) == L.Held(l, checkout, ip, now) + 1
            && L.Held(l', checkout, pair, now) == L.Held(l, checkout, pair, now) + if Over(l, checkout, ip, 10, now) then 0 else 1
  {
    hide L.RuleFor;
    hide L.Applied;
    hide ClientIp;
    hide RefusesCsrf;
    hide Over;
    var r, ip := Seen(s, c, now), ClientIp(s, c, now);
    var pair := ip + "|cart:" + c.cart;
    assert |pair| > |ip|;
    var address := L.Op.Check(ip, CHECKOUT_PATH, c.headers, CHECKOUT_ADDRESS_CEILING);
    var cart := L.Op.Check(pair, CHECKOUT_PATH, c.headers, 1);
    assert L.OpRule(rules, address) == Some(checkout) == L.OpRule(rules, cart);
    var l1 := L.Applied(rules, l, address, now).0;
    OneCheck(rules, checkout, l, address, now, ip);
    OneCheck(rules, checkout, l, address, now, pair);
    OneCheck(rules, checkout, l1, cart, now, ip);
    OneCheck(rules, checkout, l1, cart, now, pair);
    SameOver(l, l1, checkout, pair, now);
    OneOp(rules, l, address, now);
    TwoOps(rules, l, address, cart, now);
  }

  lemma SameOver(l: L.Limits, l': L.Limits, rule: L.Rule, key: string, now: int)
    requires L.Held(l', rule, key, now) == L.Held(l, rule, key, now) && L.EndsAt(l', rule, key, now) == L.EndsAt(l, rule, key, now)
    ensures Over(l', rule, key, 1, now) <==> Over(l, rule, key, 1, now)
  {}

  /** Any other request is refused exactly when its address is over one allowance of the rule it meets, and counts there. */
  lemma OtherLimitedExactly(s: Settings, rules: seq<L.Rule>, l: L.Limits, c: Context, now: int)
    requires !(c.method_ == "POST" && c.path in {LOGIN_PATH, CHECKOUT_PATH})
    ensures var rule, ip := L.RuleFor(rules, c.path, c.headers), ClientIp(s, c, now);
            var l', limited := Stepped(rules, l, EventOf(s, Admits(c, now))), IsLimited(Admission(rules, l, Seen(s, c, now), now));
            && (rule.None? ==> !limited && l' == l)
            && (rule.Some? && rule.value.windowMs > 0 ==>
                  && (limited <==> Over(l, rule.value, ip, 1, now))
                  && L.Held(l', rule.value, ip, now) == L.Held(l, rule.value, ip, now) + 1)
  {
    hide L.RuleFor;
    hide ClientIp;
    hide RefusesCsrf;
    var rule, ip := L.RuleFor(rules, c.path, c.headers), ClientIp(s, c, now);
    var op := L.Op.Check(ip, c.path, c.headers, 1);
    OneOp(rules, l, op, now);
    if rule.Some? && rule.value.windowMs > 0 {
      OneCheck(rules, rule.value, l, op, now, ip);
    }
  }

  /**
   * Main result: with the CSRF check on, a request within its rate is refused exactly when its method is unsafe, its route
   * is not exempt, and its header does not repeat the token of its cookie; one over its rate is refused for that.
   */
  lemma CsrfRefusedExactly(s: Settings, rules: seq<L.Rule>, l: L.Limits, c: Context, now: int)
    ensures var refusal := Admission(rules, l, Seen(s, c, now), now);
            && (refusal == Some(CsrfInvalid) <==>
                && s.csrf && !c.csrfExempt && c.method_ in {"POST", "PUT", "PATCH", "DELETE"}
                && (c.csrfCookie == "" || c.csrfHeader != c.csrfCookie)
                && !IsLimited(Admission(rules, l, Seen(s, c, now), now)))
            && (refusal.None? || refusal == Some(CsrfInvalid) || IsLimited(refusal))
  {
    hide L.Answers;
    hide AdmitOps;
    hide ClientIp;
  }

  /** The keys of a request's account, as an outcome counts or clears them. */
  lemma AccountKey(s: Settings, c: Context, now: int)
    ensures AccountKeys(Seen(s, c, now))
         == if c.account.Some? && c.account.value != "" then ["account:" + c.account.value] else []
  {}

  /** Main result: a successful login takes its account's bucket away, and leaves its address's and every other as they are. */
  lemma SuccessClearsTheAccount(s: Settings, rules: seq<L.Rule>, login: L.Rule, l: L.Limits, c: Context, status: nat, now: int,
                                key: string)
    requires LoginRule(rules, login) && c.method_ == "POST" && c.path == LOGIN_PATH && 200 <= status < 300
    ensures var l' := Stepped(rules, l, EventOf(s, Finishes(c, status, now)));
            var account := c.account.Some? && c.account.value != "" && key == "account:" + c.account.value;
            && L.Held(l', login, key, now) == (if account then 0 else L.Held(l, login, key, now))
            && L.EndsAt(l', login, key, now) == (if account then None else L.EndsAt(l, login, key, now))
  {
    hide L.RuleFor;
    hide ClientIp;
    hide RefusesCsrf;
    var r := Seen(s, c, now);
    OneOp(rules, l, L.Clear(LOGIN_PATH, AccountKeys(r)), now);
    AccountKey(s, c, now);
    L.ClearTakesExactly(l, login, AccountKeys(r), L.BucketKey(login, key));
    forall k | k in AccountKeys(r)
      ensures L.BucketKey(login, k) == L.BucketKey(login, key) <==> k == key
    {
      L.KeysOfOneRule(login, k, key);
    }
  }

  /** Main result: a failed one counts under its address, and under its account; and its account's count is what is warned of. */
  lemma FailureCountsBoth(s: Settings, rules: seq<L.Rule>, login: L.Rule, l: L.Limits, c: Context, status: nat, now: int,
                          key: string)
    requires LoginRule(rules, login) && login.windowMs > 0 && c.method_ == "POST" && c.path == LOGIN_PATH
    requires !(200 <= status < 300) && IsAddress(ClientIp(s, c, now))
    ensures var l' := Stepped(rules, l, EventOf(s, Finishes(c, status, now)));
            var account := c.account.Some? && c.account.value != "";
            && L.Held(l', login, key, now)
               == L.Held(l, login, key, now)
               + (if key == ClientIp(s, c, now) || (account && key == "account:" + c.account.value) then 1 else 0)
            && (account ==>
                  L.CountsAfter(l, login, [ClientIp(s, c, now)] + AccountKeys(Seen(s, c, now)), now)[1]
                  == L.Held(l, login, "account:" + c.account.value, now) + 1)
  {
    hide Stepped;
    hide L.RuleFor;
    hide ClientIp;
    hide RefusesCsrf;
    hide L.CountsAfter;
    hide L.AllCounted;
    hide L.Held;
    var r, ip := Seen(s, c, now), ClientIp(s, c, now);
    var keys := [ip] + AccountKeys(r);
    FailureHits(s, rules, login, l, c, status, now);
    AccountKey(s, c, now);
    L.HitCountsEach(l, login, keys, key, now);
    if AccountKeys(r) != [] {
      assert keys == [ip, AccountKeys(r)[0]] && keys[..2] == keys && ip != AccountKeys(r)[0];
    } else {
      assert keys == [ip];
    }
  }

  lemma FailureHits(s: Settings, rules: seq<L.Rule>, login: L.Rule, l: L.Limits, c: Context, status: nat, now: int)
    requires LoginRule(rules, login) && c.method_ == "POST" && c.path == LOGIN_PATH && !(200 <= status < 300)
    ensures Stepped(rules, l, EventOf(s, Finishes(c, status, now)))
         == L.AllCounted(l, login, [ClientIp(s, c, now)] + AccountKeys(Seen(s, c, now)), now)
  {
    hide L.RuleFor;
    hide ClientIp;
    hide RefusesCsrf;
    hide L.CountsAfter;
    hide L.AllCounted;
    hide AccountKeys;
    OneOp(rules, l, L.Hit(LOGIN_PATH, [ClientIp(s, c, now)] + AccountKeys(Seen(s, c, now))), now);
  }

  /** The outcome of anything but a login changes nothing. */
  lemma OtherOutcomesChangeNothing(s: Settings, rules: seq<L.Rule>, l: L.Limits, c: Context, status: nat, now: int)
    requires !(c.method_ == "POST" && c.path == LOGIN_PATH)
    ensures Stepped(rules, l, EventOf(s, Finishes(c, status, now))) == l
  {}
}
