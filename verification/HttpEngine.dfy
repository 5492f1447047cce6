/** The shared HTTP client: egress checks, manual redirects and retries (`http.py`). */
module HttpEngine {
  import opened Wrappers
  import opened Text

  const MAX_REDIRECTS := 5

  type Params = map<string, string>
  type Json = string

  // ----- the outside world -----

  datatype Address = Address(text: string, multicast: bool, global: bool)
  /** `Unencodable`: the host name breaks the resolver's encoding, a `UnicodeError`, which is a `ValueError`. */
  datatype Resolution = Unresolvable | Unencodable | Resolved(addresses: seq<Address>)
  datatype UrlParts = Malformed | Parts(scheme: string, host: Option<string>)

  /** What comes back: a transport error, or a response with what the client asks of it. */
  datatype Reply =
    | TransportError
    | Response(redirect: bool, location: Option<string>, statusRaises: bool, json: Option<Json>)

  /** A request as it leaves: for which URL, to which rewritten URL and address, under which host name. */
  datatype Request = Request(url: string, ip: Address, pinnedUrl: string, hostHeader: string, params: Option<Params>)

  /** URL arithmetic is fixed (`None` where Python raises `ValueError`); the resolver and the server may answer every
      call differently, so they are also given the number of things that happened before. */
  datatype Env = Env(
    split: string -> UrlParts,
    join: (string, string) -> Option<string>,
    pin: (string, string) -> Option<string>,
    literal: string -> Option<Address>,
    resolve: (nat, string) -> Resolution,
    serve: (nat, Request) -> Reply,
    allowlist: seq<string>)

  /** How a check ends: with an address, with the policy's own error, or with a `ValueError`. */
  datatype Verdict = Pass(ip: Address) | Blocked | BadUrl
  datatype Event = Checked(url: string, verdict: Verdict) | Sent(request: Request, reply: Reply) | Slept(tenths: int)

  // ----- the egress policy -----

  /** Only the first candidate is examined and used. */
  function FirstCandidate(candidates: seq<Address>): Verdict {
    if candidates == [] then Blocked
    else if candidates[0].multicast || !candidates[0].global then Blocked
    else Pass(candidates[0])
  }

  function LowerAll(hosts: seq<string>): set<string> {
    set i: nat | i < |hosts| :: Lower(hosts[i])
  }

  /** `EgressPolicy.check`, as the `n`-th event. */
  function CheckUrl(env: Env, n: nat, url: string): Verdict {
    match env.split(url)
    case Malformed => BadUrl
    case Parts(scheme, host) =>
      if scheme !in ["http", "https"] then Blocked
      else if host.None? || host.value == "" then Blocked
      else if env.allowlist != [] && Lower(host.value) !in LowerAll(env.allowlist) then Blocked
      else
        match env.literal(host.value)
        case Some(ip) => FirstCandidate([ip])
        case None =>
          match env.resolve(n, host.value)
          case Unresolvable => Blocked
          case Unencodable => BadUrl
          case Resolved(addresses) => FirstCandidate(addresses)
  }

  class EgressPolicy {
    const env: Env
    const allowlist: set<string>

    constructor (env: Env)
      ensures this.env == env && Valid()
    {
      this.env := env;
      allowlist := LowerAll(env.allowlist);
    }

    ghost predicate Valid() {
      allowlist == LowerAll(env.allowlist)
    }

    /** `check` with `_resolve_and_validate`, whose loop over the candidates never reaches a second one. */
    method Check(n: nat, url: string) returns (verdict: Verdict)
      requires Valid()
      ensures verdict == CheckUrl(env, n, url)
    {
      var parsed := env.split(url);
      if parsed.Malformed? {
        return BadUrl;
      }
      if parsed.scheme !in ["http", "https"] {
        return Blocked;
      }
      if parsed.host.None? || parsed.host.value == "" {
        return Blocked;
      }
      var host := parsed.host.value;
      if allowlist != {} && Lower(host) !in allowlist {
        return Blocked;
      }
      assert allowlist == {} <==> env.allowlist == [] by {
        LowerAllEmpty(env.allowlist);
      }
      var candidates: seq<Address>;
      var literal := env.literal(host);
      if literal.Some? {
        candidates := [literal.value];
      } else {
        var resolution := env.resolve(n, host);
        if resolution.Unencodable? {
          return BadUrl;
        }
        if resolution.Unresolvable? {
          return Blocked;
        }
        candidates := resolution.addresses;
      }
      for k := 0 to |candidates|
        invariant k == 0
      {
        if candidates[k].multicast || !candidates[k].global {
          return Blocked;
        }
        return Pass(candidates[k]);
      }
      return Blocked;
    }
  }

  lemma LowerAllEmpty(hosts: seq<string>)
    ensures LowerAll(hosts) == {} <==> hosts == []
  {
    if hosts != [] {
      assert Lower(hosts[0]) in LowerAll(hosts);
    }
  }

  // ----- the engine as functions on the record of events -----

  datatype Sending = Refused | Broken | Answered(reply: Reply)

  /** `_send_validated`. */
  function SendValidated(env: Env, trace: seq<Event>, url: string, params: Option<Params>): (seq<Event>, Sending) {
    var verdict := CheckUrl(env, |trace|, url);
    var checked := trace + [Checked(url, verdict)];
    match verdict
    case Blocked => (checked, Refused)
    case BadUrl => (checked, Broken)
    case Pass(ip) =>
      var pinned := env.pin(url, ip.text);
      if pinned.None? then (checked, Broken)
      else
        var request := Request(url, ip, pinned.value, HostOf(env, url), params);
        var reply := env.serve(|checked|, request);
        (checked + [Sent(request, reply)], Answered(reply))
  }

  function HostOf(env: Env, url: string): string {
    match env.split(url)
    case Malformed => ""
    case Parts(_, host) => if host.None? then "" else host.value
  }

  /** How one attempt ends: with a document, with the empty document, refused by policy, or in a retryable error. */
  datatype Attempt = Got(json: Json) | Empty | PolicyBlock | Failed

  /** `_get_json_following_redirects` with `hops` requests left. */
  function Follow(env: Env, trace: seq<Event>, url: string, params: Option<Params>, hops: nat): (seq<Event>, Attempt)
    decreases hops
  {
    if hops == 0 then (trace, Failed)
    else
      var (after, sending) := SendValidated(env, trace, url, params);
      match sending
      case Refused => (after, PolicyBlock)
      case Broken => (after, Failed)
      case Answered(TransportError) => (after, Failed)
      case Answered(Response(redirect, location, statusRaises, json)) =>
        if redirect then
          if location.None? || location.value == "" then (after, if statusRaises then Failed else Empty)
          else
            match env.join(url, location.value)
            case None => (after, Failed)
            case Some(next) => Follow(env, after, next, None, hops - 1)
        else if statusRaises || json.None? then (after, Failed)
        else (after, Got(json.value))
  }

  datatype Outcome = Document(json: Json) | EmptyDocument | EgressBlocked | LastError

  /** `get_json` from attempt `attempt` on, out of `attempts`, each of at most `hops` requests. */
  function Retry(env: Env, trace: seq<Event>, url: string, params: Option<Params>, hops: nat, attempt: nat,
                 attempts: nat): (seq<Event>, Outcome)
    requires attempt <= attempts
    decreases attempts - attempt
  {
    if attempt == attempts then (trace, if attempts > 0 then LastError else EmptyDocument)
    else
      var (after, result) := Follow(env, trace, url, params, hops);
      match result
      case Got(json) => (after, Document(json))
      case Empty => (after, EmptyDocument)
      case PolicyBlock => (after, EgressBlocked)
      case Failed => Retry(env, after + [Slept(2 * (attempt + 1))], url, params, hops, attempt + 1, attempts)
  }

  function Attempts(retries: int): nat {
    if retries + 1 > 0 then retries + 1 else 0
  }

  // ----- the client -----

  class HttpProvider {
    const env: Env
    const egress: EgressPolicy
    const retries: int
    /** The number of requests one attempt may send. */
    const hops: nat
    /** Everything the client has done so far. */
    var trace: seq<Event>

    constructor (env: Env, retries: int)
      ensures this.env == env && this.retries == retries && hops == 6 && trace == [] && Valid()
    {
      this.env := env;
      egress := new EgressPolicy(env);
      this.retries := retries;
      hops := MAX_REDIRECTS + 1;
      trace := [];
    }

    ghost predicate Valid() {
      egress.env == env && egress.Valid()
    }

    method Send(url: string, params: Option<Params>) returns (sending: Sending)
      requires Valid()
      modifies this
      ensures (trace, sending) == SendValidated(env, old(trace), url, params)
    {
      var verdict := egress.Check(|trace|, url);
      trace := trace + [Checked(url, verdict)];
      if verdict.Blocked? {
        return Refused;
      }
      if verdict.BadUrl? {
        return Broken;
      }
      var pinned := env.pin(url, verdict.ip.text);
      if pinned.None? {
        return Broken;
      }
      var request := Request(url, verdict.ip, pinned.value, HostOf(env, url), params);
      var reply := env.serve(|trace|, request);
      trace := trace + [Sent(request, reply)];
      return Answered(reply);
    }

    method GetFollowingRedirects(url: string, params: Option<Params>) returns (result: Attempt)
      requires Valid()
      modifies this
      ensures (trace, result) == Follow(env, old(trace), url, params, hops)
    {
      var currentUrl := url;
      var currentParams := params;
      var hop := 0;
      while hop < hops
        invariant 0 <= hop <= hops
        invariant Follow(env, old(trace), url, params, hops)
               == Follow(env, trace, currentUrl, currentParams, hops - hop)
      {
        var sending := Send(currentUrl, currentParams);
        if sending.Refused? {
          return PolicyBlock;
        }
        if sending.Broken? || sending.reply.TransportError? {
          return Failed;
        }
        var response := sending.reply;
        if response.redirect {
          if response.location.None? || response.location.value == "" {
            return if response.statusRaises then Failed else Empty;
          }
          var next := env.join(currentUrl, response.location.value);
          if next.None? {
            return Failed;
          }
          currentUrl := next.value;
          currentParams := None;
          hop := hop + 1;
          continue;
        }
        if response.statusRaises || response.json.None? {
          return Failed;
        }
        return Got(response.json.value);
      }
      return Failed;
    }

    /** `get_json`. */
    method GetJson(url: string, params: Option<Params>) returns (outcome: Outcome)
      requires Valid()
      modifies this
      ensures (trace, outcome) ==
              Retry(env, old(trace), url, params, hops, 0, if retries < 0 then 0 else retries + 1)
    {
      var failed := false;
      var attempt := 0;
      while attempt < retries + 1
        invariant 0 <= attempt <= Attempts(retries)
        invariant failed <==> attempt > 0
        invariant Retry(env, old(trace), url, params, hops, 0, Attempts(retries))
               == Retry(env, trace, url, params, hops, attempt, Attempts(retries))
      {
        var result := GetFollowingRedirects(url, params);
        match result {
          case Got(json) => return Document(json);
          case Empty => return EmptyDocument;
          case PolicyBlock => return EgressBlocked;
          case Failed =>
            failed := true;
            trace := trace + [Slept(2 * (attempt + 1))];
        }
        attempt := attempt + 1;
      }
      if failed {
        return LastError;
      }
      return EmptyDocument;
    }
  }

  // ----- how many requests -----

  function CountSent(trace: seq<Event>): nat {
    if trace == [] then 0
    else CountSent(trace[..|trace| - 1]) + if trace[|trace| - 1].Sent? then 1 else 0
  }

  function CountSlept(trace: seq<Event>): nat {
    if trace == [] then 0
    else CountSlept(trace[..|trace| - 1]) + if trace[|trace| - 1].Slept? then 1 else 0
  }

  /** Total back-off, in tenths of a second. */
  function Backoff(trace: seq<Event>): int {
    if trace == [] then 0
    else Backoff(trace[..|trace| - 1]) + if trace[|trace| - 1].Slept? then trace[|trace| - 1].tenths else 0
  }

  lemma CountsSnoc(trace: seq<Event>, e: Event)
    ensures CountSent(trace + [e]) == CountSent(trace) + if e.Sent? then 1 else 0
    ensures CountSlept(trace + [e]) == CountSlept(trace) + if e.Slept? then 1 else 0
    ensures Backoff(trace + [e]) == Backoff(trace) + if e.Slept? then e.tenths else 0
  {
    assert (trace + [e])[..|trace|] == trace;
  }

  lemma SendCounts(env: Env, trace: seq<Event>, url: string, params: Option<Params>)
    ensures
      var after := SendValidated(env, trace, url, params).0;
      && trace <= after
      && CountSent(after) <= CountSent(trace) + 1
      && CountSlept(after) == CountSlept(trace) && Backoff(after) == Backoff(trace)
  {
    hide CheckUrl, HostOf, CountSent, CountSlept, Backoff;
    var verdict := CheckUrl(env, |trace|, url);
    CountsSnoc(trace, Checked(url, verdict));
    if verdict.Pass? && env.pin(url, verdict.ip.text).Some? {
      var after := SendValidated(env, trace, url, params).0;
      CountsSnoc(trace + [Checked(url, verdict)], after[|after| - 1]);
    }
  }

  lemma {:induction false} FollowCounts(env: Env, trace: seq<Event>, url: string, params: Option<Params>, hops: nat)
    ensures
      var after := Follow(env, trace, url, params, hops).0;
      && trace <= after
      && CountSent(after) <= CountSent(trace) + hops
      && CountSlept(after) == CountSlept(trace) && Backoff(after) == Backoff(trace)
    decreases hops
  {
    hide SendValidated, CountSent, CountSlept, Backoff;
    if hops > 0 {
      SendCounts(env, trace, url, params);
      var (after, sending) := SendValidated(env, trace, url, params);
      if sending.Answered? && sending.reply.Response? && sending.reply.redirect && sending.reply.location.Some? {
        var next := env.join(url, sending.reply.location.value);
        if next.Some? {
          FollowCounts(env, after, next.value, None, hops - 1);
        }
      }
    }
  }

  /** `n` times `k`, by repeated addition. */
  function Repeated(n: nat, k: nat): nat {
    if n == 0 then 0 else k + Repeated(n - 1, k)
  }

  lemma {:induction false} RepeatedMultiplies(n: nat, k: nat)
    ensures Repeated(n, k) == n * k
  {
    if n > 0 {
      RepeatedMultiplies(n - 1, k);
      assert n * k == (n - 1) * k + k;
    }
  }

  /** One attempt and, if it failed, the sleep after it. */
  lemma AttemptCounts(env: Env, trace: seq<Event>, url: string, params: Option<Params>, hops: nat, attempt: nat)
    ensures
      var (after, result) := Follow(env, trace, url, params, hops);
      var slept := after + [Slept(2 * (attempt + 1))];
      && CountSent(after) <= CountSent(trace) + hops
      && CountSlept(after) == CountSlept(trace) && Backoff(after) == Backoff(trace)
      && CountSent(slept) == CountSent(after)
      && CountSlept(slept) == CountSlept(trace) + 1
      && Backoff(slept) == Backoff(trace) + 2 * (attempt + 1)
  {
    FollowCounts(env, trace, url, params, hops);
    CountsSnoc(Follow(env, trace, url, params, hops).0, Slept(2 * (attempt + 1)));
  }

  lemma {:induction false} RetrySends(env: Env, trace: seq<Event>, url: string, params: Option<Params>, hops: nat,
                                      attempt: nat, attempts: nat)
    requires attempt <= attempts
    ensures
      CountSent(Retry(env, trace, url, params, hops, attempt, attempts).0)
      <= CountSent(trace) + Repeated(attempts - attempt, hops)
    decreases attempts - attempt
  {
    hide Follow, CountSent, CountSlept, Backoff;
    if attempt < attempts {
      AttemptCounts(env, trace, url, params, hops, attempt);
      var (after, result) := Follow(env, trace, url, params, hops);
      var slept := after + [Slept(2 * (attempt + 1))];
      if result.Failed? {
        RetrySends(env, slept, url, params, hops, attempt + 1, attempts);
      }
    }
  }

  function Pronic(n: int): int {
    n * (n + 1)
  }

  lemma PronicNext(n: int)
    ensures Pronic(n + 1) == Pronic(n) + 2 * (n + 1)
  {
  }

  /** Each failed attempt sleeps 0.2 s longer than the one before. */
  lemma {:induction false} RetryBackoff(env: Env, trace: seq<Event>, url: string, params: Option<Params>, hops: nat,
                                        attempt: nat, attempts: nat)
    requires attempt <= attempts
    ensures
      var (after, outcome) := Retry(env, trace, url, params, hops, attempt, attempts);
      var failures := attempt + CountSlept(after) - CountSlept(trace);
      && attempt <= failures <= attempts
      && Backoff(after) == Backoff(trace) + Pronic(failures) - Pronic(attempt)
      && (attempts > 0 ==> (failures == attempts <==> outcome.LastError?))
    decreases attempts - attempt
  {
    hide Follow, CountSlept, Backoff, Pronic;
    if attempt < attempts {
      AttemptCounts(env, trace, url, params, hops, attempt);
      var (after, result) := Follow(env, trace, url, params, hops);
      var slept := after + [Slept(2 * (attempt + 1))];
      if result.Failed? {
        PronicNext(attempt);
        RetryBackoff(env, slept, url, params, hops, attempt + 1, attempts);
      }
    }
  }

  /** The record of a call extends what the client had done before. */
  lemma {:induction false} RetryExtends(env: Env, trace: seq<Event>, url: string, params: Option<Params>, hops: nat,
                                        attempt: nat, attempts: nat)
    requires attempt <= attempts
    ensures trace <= Retry(env, trace, url, params, hops, attempt, attempts).0
    decreases attempts - attempt
  {
    hide Follow, CountSent, CountSlept, Backoff;
    if attempt < attempts {
      FollowCounts(env, trace, url, params, hops);
      var (after, result) := Follow(env, trace, url, params, hops);
      if result.Failed? {
        RetryExtends(env, after + [Slept(2 * (attempt + 1))], url, params, hops, attempt + 1, attempts);
      }
    }
  }

  lemma {:induction false} CountsConcat(before: seq<Event>, events: seq<Event>)
    ensures CountSent(before + events) == CountSent(before) + CountSent(events)
    ensures CountSlept(before + events) == CountSlept(before) + CountSlept(events)
    ensures Backoff(before + events) == Backoff(before) + Backoff(events)
  {
    if events == [] {
      assert before + events == before;
    } else {
      var front, last := events[..|events| - 1], events[|events| - 1];
      CountsConcat(before, front);
      assert before + events == (before + front) + [last];
      CountsSnoc(before + front, last);
      assert events == front + [last];
    }
  }

  /** Any call of `get_json`, whatever the client did before: at most (retries + 1) * hops requests, where hops is
      MAX_REDIRECTS + 1; the back-off after `f` failed attempts is f * (f + 1) tenths of a second; the call ends in
      the last error exactly when every attempt failed. */
  lemma RequestAndBackoffBounds(env: Env, trace: seq<Event>, url: string, params: Option<Params>, hops: nat,
                                retries: nat)
    ensures
      var (after, outcome) := Retry(env, trace, url, params, hops, 0, retries + 1);
      && trace <= after
      && var events := after[|trace|..];
      && CountSent(events) <= (retries + 1) * hops
      && Backoff(events) == Pronic(CountSlept(events))
      && (outcome.LastError? <==> CountSlept(events) == retries + 1)
      && (outcome.LastError? ==> Backoff(events) == (retries + 1) * (retries + 2))
  {
    hide Retry, CountSent, CountSlept, Backoff;
    var after := Retry(env, trace, url, params, hops, 0, retries + 1).0;
    RetryExtends(env, trace, url, params, hops, 0, retries + 1);
    assert trace + after[|trace|..] == after;
    CountsConcat(trace, after[|trace|..]);
    RetrySends(env, trace, url, params, hops, 0, retries + 1);
    RepeatedMultiplies(retries + 1, hops);
    RetryBackoff(env, trace, url, params, hops, 0, retries + 1);
    assert Pronic(retries + 1) == (retries + 1) * (retries + 2);
  }

  // ----- every request is accounted for -----

  /** The place of a request in the record of a call that began after `base` events: it directly follows the check of
      the same URL that yielded its address; and it is either the first request of an attempt, for the URL and
      parameters of the call, or the next hop of the request before it, without parameters. */
  ghost predicate Accounted(env: Env, trace: seq<Event>, base: nat, url: string, params: Option<Params>, i: nat)
    requires i < |trace| && trace[i].Sent?
  {
    var r := trace[i].request;
    && i > base
    && trace[i - 1] == Checked(r.url, Pass(r.ip))
    && CheckUrl(env, i - 1, r.url) == Pass(r.ip)
    && env.pin(r.url, r.ip.text) == Some(r.pinnedUrl)
    && r.hostHeader == HostOf(env, r.url)
    && trace[i].reply == env.serve(i, r)
    && Linked(env, trace[..i - 1], base, url, params, r.url, r.params)
  }

  /** A request for `next` may follow `trace`. */
  ghost predicate Linked(env: Env, trace: seq<Event>, base: nat, url: string, params: Option<Params>,
                         next: string, nextParams: Option<Params>) {
    if |trace| <= base || trace[|trace| - 1].Slept? then |trace| >= base && next == url && nextParams == params
    else
      var last := trace[|trace| - 1];
      && last.Sent? && last.reply.Response? && last.reply.redirect
      && last.reply.location.Some?
      && env.join(last.request.url, last.reply.location.value) == Some(next)
      && nextParams == None
  }

  ghost predicate AllAccounted(env: Env, trace: seq<Event>, base: nat, url: string, params: Option<Params>) {
    forall i: nat :: base <= i < |trace| && trace[i].Sent? ==> Accounted(env, trace, base, url, params, i)
  }

  lemma SnocAccounted(env: Env, trace: seq<Event>, base: nat, url: string, params: Option<Params>, e: Event)
    requires AllAccounted(env, trace, base, url, params)
    requires e.Sent? ==> Accounted(env, trace + [e], base, url, params, |trace|)
    ensures AllAccounted(env, trace + [e], base, url, params)
  {
    hide CheckUrl, HostOf;
    var after := trace + [e];
    forall i: nat | base <= i < |after| && after[i].Sent? ensures Accounted(env, after, base, url, params, i) {
      if i < |trace| {
        assert Accounted(env, trace, base, url, params, i);
        assert after[..i - 1] == trace[..i - 1];
      }
    }
  }

  lemma SendAccounted(env: Env, trace: seq<Event>, base: nat, url: string, params: Option<Params>,
                      next: string, nextParams: Option<Params>)
    requires AllAccounted(env, trace, base, url, params) && Linked(env, trace, base, url, params, next, nextParams)
    ensures AllAccounted(env, SendValidated(env, trace, next, nextParams).0, base, url, params)
  {
    hide CheckUrl, HostOf, AllAccounted;
    var verdict := CheckUrl(env, |trace|, next);
    var checked := trace + [Checked(next, verdict)];
    SnocAccounted(env, trace, base, url, params, Checked(next, verdict));
    if verdict.Pass? && env.pin(next, verdict.ip.text).Some? {
      var after := SendValidated(env, trace, next, nextParams).0;
      assert after[..|checked| - 1] == trace;
      SnocAccounted(env, checked, base, url, params, after[|checked|]);
    }
  }

  lemma SendLast(env: Env, trace: seq<Event>, url: string, params: Option<Params>)
    ensures
      var (after, sending) := SendValidated(env, trace, url, params);
      && |after| > |trace|
      && (sending.Answered? ==>
            var last := after[|after| - 1];
            last.Sent? && last.request.url == url && last.reply == sending.reply)
  {
    hide CheckUrl, HostOf;
  }

  lemma {:induction false} FollowAccounted(env: Env, trace: seq<Event>, base: nat, url: string, params: Option<Params>,
                                           next: string, nextParams: Option<Params>, hops: nat)
    requires AllAccounted(env, trace, base, url, params) && Linked(env, trace, base, url, params, next, nextParams)
    ensures AllAccounted(env, Follow(env, trace, next, nextParams, hops).0, base, url, params)
    ensures |Follow(env, trace, next, nextParams, hops).0| >= |trace|
    decreases hops
  {
    hide SendValidated, AllAccounted;
    if hops > 0 {
      SendAccounted(env, trace, base, url, params, next, nextParams);
      SendLast(env, trace, next, nextParams);
      var (after, sending) := SendValidated(env, trace, next, nextParams);
      if sending.Answered? && sending.reply.Response? && sending.reply.redirect && sending.reply.location.Some? {
        var hop := env.join(next, sending.reply.location.value);
        if hop.Some? {
          FollowAccounted(env, after, base, url, params, hop.value, None, hops - 1);
        }
      }
    }
  }

  lemma {:induction false} RetryAccounted(env: Env, trace: seq<Event>, base: nat, url: string, params: Option<Params>,
                                          hops: nat, attempt: nat, attempts: nat)
    requires attempt <= attempts
    requires AllAccounted(env, trace, base, url, params) && Linked(env, trace, base, url, params, url, params)
    ensures AllAccounted(env, Retry(env, trace, url, params, hops, attempt, attempts).0, base, url, params)
    decreases attempts - attempt
  {
    hide Follow, AllAccounted;
    if attempt < attempts {
      FollowAccounted(env, trace, base, url, params, url, params, hops);
      var (after, result) := Follow(env, trace, url, params, hops);
      if result.Failed? {
        var slept := after + [Slept(2 * (attempt + 1))];
        SnocAccounted(env, after, base, url, params, Slept(2 * (attempt + 1)));
        RetryAccounted(env, slept, base, url, params, hops, attempt + 1, attempts);
      }
    }
  }

  /** The address a host stands for: itself if it is a literal, else the first one resolved. */
  ghost predicate StandsFor(env: Env, n: nat, host: string, ip: Address) {
    var resolution := env.resolve(n, host);
    if env.literal(host).Some? then env.literal(host).value == ip
    else resolution.Resolved? && resolution.addresses != [] && resolution.addresses[0] == ip
  }

  /** With no allowlist every host is listed; otherwise letter case is ignored. */
  ghost predicate Listed(allowlist: seq<string>, host: string) {
    allowlist == [] || exists i :: 0 <= i < |allowlist| && Lower(allowlist[i]) == Lower(host)
  }

  /** A check passes with an address exactly when the URL is http(s) with an allowed host that stands for that
      address and the address is public. */
  lemma PassIff(env: Env, n: nat, url: string, ip: Address)
    ensures
      CheckUrl(env, n, url) == Pass(ip) <==>
      && env.split(url).Parts? && env.split(url).scheme in ["http", "https"]
      && HostOf(env, url) != "" && Listed(env.allowlist, HostOf(env, url))
      && StandsFor(env, n, HostOf(env, url), ip) && ip.global && !ip.multicast
  {
  }

  /** The host stands for no address: it is no literal and does not resolve, or resolves to nothing. */
  ghost predicate StandsForNothing(env: Env, n: nat, host: string) {
    var resolution := env.resolve(n, host);
    env.literal(host) == None && (resolution.Unresolvable? || (resolution.Resolved? && resolution.addresses == []))
  }

  /** A check refuses exactly for a scheme other than http(s), a missing host, a host that is not listed, one that
      stands for nothing, or one that stands for an address that is multicast or not global. */
  lemma BlockedIff(env: Env, n: nat, url: string)
    ensures
      var host := HostOf(env, url);
      CheckUrl(env, n, url) == Blocked <==>
      && env.split(url).Parts?
      && (|| env.split(url).scheme !in ["http", "https"]
          || host == ""
          || !Listed(env.allowlist, host)
          || StandsForNothing(env, n, host)
          || exists ip :: StandsFor(env, n, host, ip) && (ip.multicast || !ip.global))
  {
    var host := HostOf(env, url);
    if env.literal(host).Some? {
      assert StandsFor(env, n, host, env.literal(host).value);
    } else if env.resolve(n, host).Resolved? && env.resolve(n, host).addresses != [] {
      assert StandsFor(env, n, host, env.resolve(n, host).addresses[0]);
    }
  }

  /** It raises a `ValueError` exactly when the URL does not split, or an http(s) URL names a listed host that is no
      literal and that the resolver cannot encode. */
  lemma BadUrlIff(env: Env, n: nat, url: string)
    ensures
      var host := HostOf(env, url);
      CheckUrl(env, n, url) == BadUrl <==>
      || env.split(url).Malformed?
      || (&& env.split(url).scheme in ["http", "https"] && host != "" && Listed(env.allowlist, host)
          && env.literal(host) == None && env.resolve(n, host).Unencodable?)
  {
  }

  /** A call for a URL that stands for a non-public address is refused at once: one check, no request, no sleep. */
  lemma NonPublicEndsAtOnce(env: Env, trace: seq<Event>, url: string, params: Option<Params>, hops: nat, attempts: nat,
                            ip: Address)
    requires hops > 0 && attempts > 0 && env.split(url).Parts? && HostOf(env, url) != ""
    requires StandsFor(env, |trace|, HostOf(env, url), ip) && (ip.multicast || !ip.global)
    ensures Retry(env, trace, url, params, hops, 0, attempts) == (trace + [Checked(url, Blocked)], EgressBlocked)
  {
    BlockedIff(env, |trace|, url);
    hide CheckUrl;
  }

  /** Whatever resolver and server do, and whatever the client did before, each request of a call of `get_json` goes
      to the public address just validated for its own URL, and follows the redirect of the request before it. */
  lemma EveryRequestValidated(env: Env, trace: seq<Event>, url: string, params: Option<Params>, hops: nat,
                              attempts: nat)
    ensures
      var after := Retry(env, trace, url, params, hops, 0, attempts).0;
      && AllAccounted(env, after, |trace|, url, params)
      && forall i: nat :: |trace| <= i < |after| && after[i].Sent? ==>
           after[i].request.ip.global && !after[i].request.ip.multicast
  {
    hide Retry, CheckUrl, HostOf, Linked;
    assert Linked(env, trace, |trace|, url, params, url, params) by {
      LinkedAtOnce(env, trace, url, params);
    }
    RetryAccounted(env, trace, |trace|, url, params, hops, 0, attempts);
    var after := Retry(env, trace, url, params, hops, 0, attempts).0;
    forall i: nat | |trace| <= i < |after| && after[i].Sent?
      ensures after[i].request.ip.global && !after[i].request.ip.multicast
    {
      assert Accounted(env, after, |trace|, url, params, i);
      PassIff(env, i - 1, after[i].request.url, after[i].request.ip);
    }
  }

  lemma LinkedAtOnce(env: Env, trace: seq<Event>, url: string, params: Option<Params>)
    ensures Linked(env, trace, |trace|, url, params, url, params)
  {
  }

  // ----- a policy block ends everything -----

  ghost predicate NoBlock(trace: seq<Event>, base: nat) {
    forall i :: base <= i < |trace| && trace[i].Checked? ==> !trace[i].verdict.Blocked?
  }

  /** After the first `base` events the only block, if there is any, is the last event. */
  ghost predicate BlockOnlyLast(trace: seq<Event>, base: nat, blocked: bool) {
    if blocked then
      && |trace| > base && NoBlock(trace[..|trace| - 1], base)
      && trace[|trace| - 1].Checked? && trace[|trace| - 1].verdict.Blocked?
    else NoBlock(trace, base)
  }

  lemma SendBlocks(env: Env, trace: seq<Event>, base: nat, url: string, params: Option<Params>)
    requires base <= |trace| && NoBlock(trace, base)
    ensures
      var (after, sending) := SendValidated(env, trace, url, params);
      |after| >= base && BlockOnlyLast(after, base, sending.Refused?)
  {
    hide CheckUrl, HostOf;
    var checked := trace + [Checked(url, CheckUrl(env, |trace|, url))];
    assert checked[..|trace|] == trace;
  }

  lemma {:induction false} FollowBlocks(env: Env, trace: seq<Event>, base: nat, url: string, params: Option<Params>,
                                        hops: nat)
    requires base <= |trace| && NoBlock(trace, base)
    ensures
      var (after, result) := Follow(env, trace, url, params, hops);
      |after| >= base && BlockOnlyLast(after, base, result.PolicyBlock?)
    decreases hops
  {
    hide SendValidated;
    if hops > 0 {
      SendBlocks(env, trace, base, url, params);
      var (after, sending) := SendValidated(env, trace, url, params);
      if sending.Answered? && sending.reply.Response? && sending.reply.redirect && sending.reply.location.Some? {
        var next := env.join(url, sending.reply.location.value);
        if next.Some? {
          FollowBlocks(env, after, base, next.value, None, hops - 1);
        }
      }
    }
  }

  lemma {:induction false} RetryBlocks(env: Env, trace: seq<Event>, base: nat, url: string, params: Option<Params>,
                                       hops: nat, attempt: nat, attempts: nat)
    requires attempt <= attempts && base <= |trace| && NoBlock(trace, base)
    ensures
      var (after, outcome) := Retry(env, trace, url, params, hops, attempt, attempts);
      BlockOnlyLast(after, base, outcome.EgressBlocked?)
    decreases attempts - attempt
  {
    hide Follow;
    if attempt < attempts {
      FollowBlocks(env, trace, base, url, params, hops);
      var (after, result) := Follow(env, trace, url, params, hops);
      if result.Failed? {
        RetryBlocks(env, after + [Slept(2 * (attempt + 1))], base, url, params, hops, attempt + 1, attempts);
      }
    }
  }

  /** Whatever the client did before, a call is refused exactly when one of its checks refuses; that check is then the
      last thing the call does. */
  lemma BlockEndsTheCall(env: Env, trace: seq<Event>, url: string, params: Option<Params>, hops: nat, attempts: nat)
    ensures
      var (after, outcome) := Retry(env, trace, url, params, hops, 0, attempts);
      && BlockOnlyLast(after, |trace|, outcome.EgressBlocked?)
      && (outcome.EgressBlocked? <==> !NoBlock(after, |trace|))
  {
    hide Retry;
    RetryBlocks(env, trace, |trace|, url, params, hops, 0, attempts);
  }

  // ----- how an attempt goes on and ends -----

  /** A response that the client returns. */
  predicate Good(reply: Reply) {
    reply.Response? && !reply.redirect && !reply.statusRaises && reply.json.Some?
  }

  /** Where a reply sends the client on to, if anywhere. */
  function NextUrl(env: Env, url: string, reply: Reply): Option<string> {
    if reply.Response? && reply.redirect && reply.location.Some? && reply.location.value != ""
    then env.join(url, reply.location.value)
    else None
  }

  /** A redirect without a location and without an error status. */
  predicate Nowhere(reply: Reply) {
    reply.Response? && reply.redirect && (reply.location.None? || reply.location.value == "") && !reply.statusRaises
  }

  /** One sending is a check and, exactly when that passes and the URL can be pinned, a request. */
  lemma SendIff(env: Env, trace: seq<Event>, url: string, params: Option<Params>)
    ensures
      var (after, sending) := SendValidated(env, trace, url, params);
      var verdict := CheckUrl(env, |trace|, url);
      && (sending == Refused <==> verdict == Blocked)
      && (sending.Answered? <==> verdict.Pass? && env.pin(url, verdict.ip.text).Some?)
      && (if sending.Answered? then |after| == |trace| + 2 && after[|trace| + 1].Sent?
                                    && after[|trace| + 1].reply == sending.reply
                                    && after[|trace| + 1].request.url == url
          else after == trace + [Checked(url, verdict)])
      && trace < after && after[|trace|] == Checked(url, verdict)
  {
    hide CheckUrl, HostOf;
  }

  /** How an attempt ends: with a document exactly when its last event is a good reply, refused exactly when that is a
      refusal, with the empty document exactly when that is a redirect to nowhere; and if it ends at a redirect that
      leads somewhere, it has used up its hops. Every other redirect that leads somewhere is followed. */
  lemma {:induction false} AttemptEnds(env: Env, trace: seq<Event>, url: string, params: Option<Params>, hops: nat)
    requires hops > 0
    ensures
      var (after, result) := Follow(env, trace, url, params, hops);
      && trace < after
      && var last := after[|after| - 1];
      && (result.Got? <==> last.Sent? && Good(last.reply))
      && (result.Got? ==> last.reply.json == Some(result.json))
      && (result == PolicyBlock <==> last.Checked? && last.verdict == Blocked)
      && (result == Empty <==> last.Sent? && Nowhere(last.reply))
      && (last.Sent? && NextUrl(env, last.request.url, last.reply).Some? ==> |after| == |trace| + 2 * hops)
      && (forall i :: |trace| <= i < |after| - 1 && after[i].Sent? ==>
            && after[i + 1].Checked?
            && NextUrl(env, after[i].request.url, after[i].reply) == Some(after[i + 1].url))
    decreases hops
  {
    SendIff(env, trace, url, params);
    hide CheckUrl, SendValidated, HostOf;
    var (after, sending) := SendValidated(env, trace, url, params);
    if sending.Answered? {
      var next := NextUrl(env, url, sending.reply);
      if next.Some? && hops > 1 {
        AttemptEnds(env, after, next.value, None, hops - 1);
        FollowChecksFirst(env, after, next.value, None, hops - 1);
      }
    }
  }

  lemma FollowChecksFirst(env: Env, trace: seq<Event>, url: string, params: Option<Params>, hops: nat)
    requires hops > 0
    ensures
      var after := Follow(env, trace, url, params, hops).0;
      trace < after && after[|trace|] == Checked(url, CheckUrl(env, |trace|, url))
  {
    SendIff(env, trace, url, params);
    var (after, sending) := SendValidated(env, trace, url, params);
    if sending.Answered? && NextUrl(env, url, sending.reply).Some? {
      FollowCounts(env, after, NextUrl(env, url, sending.reply).value, None, hops - 1);
    }
    hide CheckUrl, SendValidated, HostOf;
  }

  /** A call returns a document exactly when its last event is a good reply, and the empty document exactly when that
      is a redirect to nowhere. */
  lemma {:induction false} CallEnds(env: Env, trace: seq<Event>, url: string, params: Option<Params>, hops: nat,
                                    attempt: nat, attempts: nat)
    requires attempt < attempts && hops > 0
    ensures
      var (after, outcome) := Retry(env, trace, url, params, hops, attempt, attempts);
      && trace < after
      && var last := after[|after| - 1];
      && (outcome.Document? <==> last.Sent? && Good(last.reply))
      && (outcome.Document? ==> last.reply.json == Some(outcome.json))
      && (outcome == EmptyDocument <==> last.Sent? && Nowhere(last.reply))
      && (outcome == EgressBlocked <==> last.Checked? && last.verdict == Blocked)
      && (outcome == LastError <==> last.Slept?)
    decreases attempts - attempt
  {
    AttemptEnds(env, trace, url, params, hops);
    hide Follow;
    var (after, result) := Follow(env, trace, url, params, hops);
    var slept := after + [Slept(2 * (attempt + 1))];
    if result == Failed && attempt + 1 < attempts {
      CallEnds(env, slept, url, params, hops, attempt + 1, attempts);
    }
  }

  // ----- what is returned -----

  lemma {:induction false} FollowReturns(env: Env, trace: seq<Event>, url: string, params: Option<Params>, hops: nat)
    ensures
      var (after, result) := Follow(env, trace, url, params, hops);
      result.Got? ==>
        && after != [] && after[|after| - 1].Sent? && after[|after| - 1].reply.Response?
        && !after[|after| - 1].reply.redirect && !after[|after| - 1].reply.statusRaises
        && after[|after| - 1].reply.json == Some(result.json)
    decreases hops
  {
    if hops > 0 {
      var (after, sending) := SendValidated(env, trace, url, params);
      if sending.Answered? && sending.reply.Response? && sending.reply.redirect && sending.reply.location.Some? {
        var next := env.join(url, sending.reply.location.value);
        if next.Some? {
          FollowReturns(env, after, next.value, None, hops - 1);
        }
      }
    }
  }

  /** A document returned is the body of the last request of the call, a response that is neither a redirect nor
      an error. */
  lemma {:induction false} DocumentIsLastReply(env: Env, trace: seq<Event>, url: string, params: Option<Params>,
                                               hops: nat, attempt: nat, attempts: nat)
    requires attempt <= attempts
    ensures
      var (after, outcome) := Retry(env, trace, url, params, hops, attempt, attempts);
      outcome.Document? ==>
        && after != [] && after[|after| - 1].Sent? && after[|after| - 1].reply.Response?
        && !after[|after| - 1].reply.redirect && !after[|after| - 1].reply.statusRaises
        && after[|after| - 1].reply.json == Some(outcome.json)
    decreases attempts - attempt
  {
    if attempt < attempts {
      FollowReturns(env, trace, url, params, hops);
      var (after, result) := Follow(env, trace, url, params, hops);
      if result.Failed? {
        DocumentIsLastReply(env, after + [Slept(2 * (attempt + 1))], url, params, hops, attempt + 1, attempts);
      }
    }
  }
}
