/**
 `handle_request` of `main.rs`: the gates a request passes in order, and the bookkeeping
 after an enrollment.  What the upstream answers is a parameter; the body is given with
 its decoding as an enroll request.
 */
module Gate {
  import opened Credentials
  import opened State
  import opened Wrappers
  import Allowlist
  import Nonces
  import RateLimit
  import Rfc3986
  import Text
  import Validate

  type Instant = int

  datatype Incoming = Incoming(
    ip: string,
    verb: Allowlist.Method,
    path: string,
    headers: Validate.SignedHeaders,
    body: Validate.Bytes,
    decoded: Option<Validate.EnrollRequest>)

  /** An upstream answer that arrived in full: `enrolled` if it decodes as an enroll response. */
  datatype UpstreamReply = UpstreamReply(code: nat, enrolled: Option<(Validate.AgentId, Validate.AgentState)>)

  datatype Response =
    | RateLimited
    | NotFound
    | NotReady
    | TooLarge
    | Invalid(status: Validate.Status)
    | UpstreamError
    | Answered(reply: UpstreamReply)

  /** The parts of the shared state the gates read and write. */
  datatype Gates = Gates(proxy: Proxy, limits: RateLimit.Table, nonces: Nonces.Table)

  datatype Env = Env(protocol: Allowlist.Protocol, crypto: Validate.Crypto)

  function MethodName(verb: Allowlist.Method): string {
    match verb
    case GET => "GET"
    case POST => "POST"
    case PUT => "PUT"
    case Other(name) => name
  }

  function ClassOf(env: Env, r: Incoming): RateLimit.Class {
    Allowlist.RateLimitClass(env.protocol, r.verb, r.path)
  }

  function Signed(r: Incoming): Validate.SignedRequest {
    Validate.SignedRequest(MethodName(r.verb), r.path, r.body, r.headers)
  }

  /** The last gate: the error, or none, and the nonces recorded. */
  function ValidateRequest(env: Env, g: Gates, r: Incoming, now: Instant): (Nonces.Table, Option<Validate.Status>) {
    if Allowlist.IsEnrollRoute(r.verb, r.path)
    then (g.nonces, Validate.PrecheckEnroll(env.crypto, g.proxy.enrollmentTokens, r.decoded, now))
    else Validate.VerifySigned(env.crypto, g.proxy.agents, g.nonces, Signed(r), now)
  }

  /** The agent and the token after an enroll request was answered. */
  function BookEnrollment(env: Env, p: Proxy, request: Option<Validate.EnrollRequest>, reply: UpstreamReply): Proxy {
    if !IsSuccess(reply.code) || request.None? then p
    else
      var known := if reply.enrolled.Some?
        then
          var (id, state) := reply.enrolled.value;
          p.(agents := p.agents[id := EnrolledAgent(request.value.publicKey, state)])
        else p;
      known.(enrollmentTokens := known.enrollmentTokens - {env.crypto.hmac(request.value.enrollmentToken)})
  }

  /** The gates behind the limiter, whose new table and verdict are given. */
  function Decide(env: Env, g: Gates, r: Incoming, c: RateLimit.Class, limits: RateLimit.Table,
                  verdict: RateLimit.Verdict, now: Instant, reply: Option<UpstreamReply>): (Gates, Response)
  {
    if c == RateLimit.Unrecognized
    then (g.(limits := limits), if verdict == RateLimit.Admitted then NotFound else RateLimited)
    else if !g.proxy.forwarding then (g, NotReady)
    else if verdict != RateLimit.Admitted then (g.(limits := limits), RateLimited)
    else if |r.body| > Allowlist.MaxBodyBytes(env.protocol, r.verb, r.path) then (g.(limits := limits), TooLarge)
    else
      var (nonces, refused) := ValidateRequest(env, g, r, now);
      var passed := g.(limits := limits, nonces := nonces);
      if refused.Some? then (passed, Invalid(refused.value))
      else if reply.None? then (passed, UpstreamError)
      else if Allowlist.IsEnrollRoute(r.verb, r.path)
      then (passed.(proxy := BookEnrollment(env, g.proxy, r.decoded, reply.value)), Answered(reply.value))
      else (passed, Answered(reply.value))
  }

  /** One request through all the gates; `reply` is what the upstream would answer, `None` if nothing. */
  function Handle(env: Env, g: Gates, r: Incoming, now: Instant, reply: Option<UpstreamReply>): (Gates, Response) {
    var c := ClassOf(env, r);
    var (limits, verdict) := RateLimit.Check(g.limits, r.ip, c, now);
    Decide(env, g, r, c, limits, verdict, now, reply)
  }

  // ---------------------------------------------------------------- the method

  method VerifySignedAgentRequest(env: Env, state: AppState, r: Validate.SignedRequest, now: Instant)
      returns (refused: Option<Validate.Status>)
    modifies state.nonces
    ensures (state.nonces.inner, refused)
         == Validate.VerifySigned(env.crypto, state.agents, old(state.nonces.inner), r, now)
  {
    var checked := Validate.CheckSignature(env.crypto, state.agents, r, now);
    if checked.Failure? {
      return Some(checked.error);
    }
    var recorded := state.nonces.Insert(checked.value.0, checked.value.1, now);
    refused := if recorded then None else Some(Validate.Unauthorized);
  }

  ghost function View(state: AppState): Gates
    reads state, state.nonces, state.rateLimits
  {
    Gates(state.View(), state.rateLimits.rateLimits, state.nonces.inner)
  }

  method FinishEnroll(env: Env, state: AppState, request: Option<Validate.EnrollRequest>, reply: UpstreamReply)
    modifies state
    ensures state.View() == BookEnrollment(env, old(state.View()), request, reply)
  {
    if IsSuccess(reply.code) {
      if request.Some? && reply.enrolled.Some? {
        state.UpsertAgentFromEnroll(reply.enrolled.value.0, request.value.publicKey, reply.enrolled.value.1);
      }
      if request.Some? {
        state.enrollmentTokens := state.enrollmentTokens - {env.crypto.hmac(request.value.enrollmentToken)};
      }
    }
  }

  method HandleRequest(env: Env, state: AppState, r: Incoming, now: Instant, reply: Option<UpstreamReply>)
      returns (response: Response)
    modifies state, state.nonces, state.rateLimits
    ensures (View(state), response) == Handle(env, old(View(state)), r, now, reply)
  {
    var c := Allowlist.RateLimitClass(env.protocol, r.verb, r.path);
    if c == RateLimit.Unrecognized {
      var admitted := state.rateLimits.CheckRateLimit(r.ip, c, now);
      return if admitted then NotFound else RateLimited;
    }
    var path := Allowlist.Canonicalize(r.path).value;  // refused paths are unrecognized
    if !state.forwarding {
      return NotReady;
    }
    var admitted := state.rateLimits.CheckRateLimit(r.ip, c, now);
    if !admitted {
      return RateLimited;
    }
    if |r.body| > Allowlist.MaxBodyBytes(env.protocol, r.verb, path) {
      return TooLarge;
    }
    var refused: Option<Validate.Status>;
    if Allowlist.IsEnrollRoute(r.verb, path) {
      refused := Validate.PrecheckEnroll(env.crypto, state.enrollmentTokens, r.decoded, now);
    } else {
      var signed := Validate.SignedRequest(MethodName(r.verb), path, r.body, r.headers);
      refused := VerifySignedAgentRequest(env, state, signed, now);
    }
    if refused.Some? {
      return Invalid(refused.value);
    }
    if reply.None? {
      return UpstreamError;
    }
    if Allowlist.IsEnrollRoute(r.verb, path) {
      FinishEnroll(env, state, r.decoded, reply.value);
    }
    response := Answered(reply.value);
  }

  // ---------------------------------------------------------------- one request

  predicate Sent(response: Response) {
    response.UpstreamError? || response.Answered?
  }

  function ResponseTo(env: Env, g: Gates, r: Incoming, now: Instant, reply: Option<UpstreamReply>): Response {
    Handle(env, g, r, now, reply).1
  }

  predicate WithinQuota(env: Env, g: Gates, r: Incoming, now: Instant) {
    RateLimit.Check(g.limits, r.ip, ClassOf(env, r), now).1 == RateLimit.Admitted
  }

  /** Exactly which requests go upstream. */
  lemma SentExactly(env: Env, g: Gates, r: Incoming, now: Instant, reply: Option<UpstreamReply>)
    ensures Sent(ResponseTo(env, g, r, now, reply)) <==>
              && Allowlist.IsAllowedAgentRoute(env.protocol, r.verb, r.path)
              && g.proxy.forwarding
              && WithinQuota(env, g, r, now)
              && |r.body| <= Allowlist.MaxBodyBytes(env.protocol, r.verb, r.path)
              && (if r.verb == Allowlist.POST && r.path == Allowlist.ENROLL
                  then Validate.PrecheckEnroll(env.crypto, g.proxy.enrollmentTokens, r.decoded, now) == None
                  else Validate.VerifySigned(env.crypto, g.proxy.agents, g.nonces, Signed(r), now).1 == None)
  {
    Allowlist.ClassExactly(env.protocol, r.verb, r.path);
  }

  /** What every request sent upstream is like, given that release paths lie under the agent prefix. */
  lemma SentRequestsAreAdmissible(env: Env, g: Gates, r: Incoming, now: Instant, reply: Option<UpstreamReply>)
    requires forall p :: env.protocol.isReleasePath(p) ==> Rfc3986.StartsWith(p, Allowlist.AGENT)
    requires Sent(ResponseTo(env, g, r, now, reply))
    ensures Rfc3986.StartsWith(r.path, Allowlist.AGENT)
    ensures Rfc3986.RemoveDotSegments(Rfc3986.PctDecode(r.path)) == Rfc3986.PctDecode(r.path)
    ensures Rfc3986.Split(Rfc3986.PctDecode(r.path)) == Rfc3986.MapDecode(Rfc3986.Split(r.path))
    ensures var isCommand := Allowlist.IsCommandArtifactPath(env.protocol, r.path);
            |r.body| <= if r.verb == Allowlist.PUT && isCommand then env.protocol.maxFileBytes
                        else if Allowlist.IsEnrollRoute(r.verb, r.path) then 1024 * 1024
                        else 2 * 1024 * 1024
  {
    SentExactly(env, g, r, now, reply);
    Allowlist.AllowedLiesUnderAgent(env.protocol, r.verb, r.path);
    Allowlist.AcceptedPathsAreStable(r.path);
    Allowlist.CapExactly(env.protocol, r.verb, r.path);
  }

  /**
   A request that is not sent leaves the proxy alone; one stopped before validation leaves the replay cache alone too.
   */
  lemma UnsentRequestsChangeNoProxy(env: Env, g: Gates, r: Incoming, now: Instant, reply: Option<UpstreamReply>)
    requires !Sent(ResponseTo(env, g, r, now, reply))
    ensures Handle(env, g, r, now, reply).0.proxy == g.proxy
    ensures !ResponseTo(env, g, r, now, reply).Invalid? ==> Handle(env, g, r, now, reply).0.nonces == g.nonces
  {
    var c := ClassOf(env, r);
    var (limits, verdict) := RateLimit.Check(g.limits, r.ip, c, now);
    DecidedTables(env, g, r, c, limits, verdict, now, reply);
  }

  /** A token that enrolled an agent enrolls none again, until a sync lists it again. */
  lemma TokensAreSpent(env: Env, g: Gates, r: Incoming, now: Instant, reply: Option<UpstreamReply>, again: Incoming,
                       later: Instant)
    requires ResponseTo(env, g, r, now, reply).Answered? && IsSuccess(reply.value.code)
    requires Allowlist.IsEnrollRoute(r.verb, r.path) && Allowlist.IsEnrollRoute(again.verb, again.path)
    requires r.decoded.Some? && again.decoded.Some?
    requires again.decoded.value.enrollmentToken == r.decoded.value.enrollmentToken
    ensures !Sent(ResponseTo(env, Handle(env, g, r, now, reply).0, again, later, reply))
  {
    var g' := Handle(env, g, r, now, reply).0;
    assert env.crypto.hmac(r.decoded.value.enrollmentToken) !in g'.proxy.enrollmentTokens;
    Validate.PrecheckAdmitsExactly(env.crypto, g'.proxy.enrollmentTokens, again.decoded, later);
    SentExactly(env, g', again, later, reply);
  }

  /**
   An agent just enrolled is known by its key alone: its requests verify under the trimmed key it enrolled with, and
   under no other.
   */
  lemma EnrolledAgentsSignWithTheirKey(env: Env, g: Gates, r: Incoming, now: Instant, reply: UpstreamReply,
                                       signed: Validate.SignedRequest, later: Instant)
    requires ResponseTo(env, g, r, now, Some(reply)) == Answered(reply) && IsSuccess(reply.code) && reply.enrolled.Some?
    requires Allowlist.IsEnrollRoute(r.verb, r.path) && reply.enrolled.value.1 == Validate.NotRevoked
    requires signed.headers.agentId == Some(reply.enrolled.value.0) && signed.headers.timestampMs.Some?
    requires signed.headers.nonce.Some? && signed.headers.signature.Some?
    ensures r.decoded.Some?
    ensures var agents := Handle(env, g, r, now, Some(reply)).0.proxy.agents;
            var h := signed.headers;
            Validate.CheckSignature(env.crypto, agents, signed, later).Success? <==>
              && Validate.SkewOk(Validate.Millis(later), h.timestampMs.value)
              && 1 <= |h.nonce.value| <= 128
              && env.crypto.verify(Text.Trim(r.decoded.value.publicKey, Text.IsWhitespace),
                   env.crypto.canonical(signed.method_, signed.path, signed.body, h.timestampMs.value, h.nonce.value),
                       h.signature.value)
  {
    SentExactly(env, g, r, now, Some(reply));
    Validate.PrecheckAdmitsExactly(env.crypto, g.proxy.enrollmentTokens, r.decoded, now);
    var agents := Handle(env, g, r, now, Some(reply)).0.proxy.agents;
    assert agents[reply.enrolled.value.0] == EnrolledAgent(r.decoded.value.publicKey, Validate.NotRevoked);
  }

  /**
   What one request changes of the proxy, for every request and every answer.  Nothing, unless it went upstream on
   the enroll route and was answered with a success; then its one token goes, and the agent of the answer, if it
   names one, is known by the trimmed key and the state it was given.
   */
  lemma ProxyChangesExactly(env: Env, g: Gates, r: Incoming, now: Instant, reply: Option<UpstreamReply>)
    ensures var p := g.proxy;
            var p' := Handle(env, g, r, now, reply).0.proxy;
            var booked := && r.verb == Allowlist.POST && r.path == Allowlist.ENROLL
                          && ResponseTo(env, g, r, now, reply).Answered?
                          && reply.Some? && 200 <= reply.value.code < 300;
            && (!booked ==> p' == p)
            && (booked ==>
                  && r.decoded.Some?
                  && p'.enrollmentTokens == p.enrollmentTokens - {env.crypto.hmac(r.decoded.value.enrollmentToken)}
                  && p'.(agents := p.agents, enrollmentTokens := p.enrollmentTokens) == p
                  && (reply.value.enrolled.None? ==> p'.agents == p.agents)
                  && (reply.value.enrolled.Some? ==>
                        var id := reply.value.enrolled.value.0;
                        && p'.agents.Keys == p.agents.Keys + {id}
                        && (forall x <- p.agents :: x != id ==> p'.agents[x] == p.agents[x])
                        && p'.agents[id].credentialPubkey == Text.Trim(r.decoded.value.publicKey, Text.IsWhitespace)
                        && p'.agents[id].previousPubkey == None && p'.agents[id].previousExpiresAt == None
                        && p'.agents[id].state == reply.value.enrolled.value.1))
  {
    ProxyAfter(env, g, r, now, reply);
    if Sent(ResponseTo(env, g, r, now, reply)) && Allowlist.IsEnrollRoute(r.verb, r.path) {
      SentEnrollDecodes(env, g, r, now, reply);
      if reply.Some? {
        BookedExactly(env, g.proxy, r.decoded.value, reply.value);
      }
    }
  }

  lemma SentEnrollDecodes(env: Env, g: Gates, r: Incoming, now: Instant, reply: Option<UpstreamReply>)
    requires Sent(ResponseTo(env, g, r, now, reply)) && Allowlist.IsEnrollRoute(r.verb, r.path)
    ensures r.decoded.Some?
  {
    SentExactly(env, g, r, now, reply);
    Validate.PrecheckAdmitsExactly(env.crypto, g.proxy.enrollmentTokens, r.decoded, now);
  }

  /** The one place where a request touches the proxy. */
  lemma ProxyAfter(env: Env, g: Gates, r: Incoming, now: Instant, reply: Option<UpstreamReply>)
    ensures Handle(env, g, r, now, reply).0.proxy
         == if ResponseTo(env, g, r, now, reply).Answered? && Allowlist.IsEnrollRoute(r.verb, r.path) && reply.Some?
            then BookEnrollment(env, g.proxy, r.decoded, reply.value)
            else g.proxy
  {
    var c := ClassOf(env, r);
    var (limits, verdict) := RateLimit.Check(g.limits, r.ip, c, now);
    ProxyDecided(env, g, r, c, limits, verdict, now, reply);
  }

  lemma ProxyDecided(env: Env, g: Gates, r: Incoming, c: RateLimit.Class, limits: RateLimit.Table,
                     verdict: RateLimit.Verdict, now: Instant, reply: Option<UpstreamReply>)
    ensures var (g', response) := Decide(env, g, r, c, limits, verdict, now, reply);
            g'.proxy == if response.Answered? && Allowlist.IsEnrollRoute(r.verb, r.path) && reply.Some?
                        then BookEnrollment(env, g.proxy, r.decoded, reply.value)
                        else g.proxy
  {
  }

  /** The bookkeeping after an enroll request was answered, told field by field. */
  lemma BookedExactly(env: Env, p: Proxy, request: Validate.EnrollRequest, reply: UpstreamReply)
    ensures var p' := BookEnrollment(env, p, Some(request), reply);
            && (!(200 <= reply.code < 300) ==> p' == p)
            && (200 <= reply.code < 300 ==>
                  && p'.enrollmentTokens == p.enrollmentTokens - {env.crypto.hmac(request.enrollmentToken)}
                  && p'.(agents := p.agents, enrollmentTokens := p.enrollmentTokens) == p
                  && (reply.enrolled.None? ==> p'.agents == p.agents)
                  && (reply.enrolled.Some? ==>
                        var id := reply.enrolled.value.0;
                        && p'.agents.Keys == p.agents.Keys + {id}
                        && (forall x <- p.agents :: x != id ==> p'.agents[x] == p.agents[x])
                        && p'.agents[id].credentialPubkey == Text.Trim(request.publicKey, Text.IsWhitespace)
                        && p'.agents[id].previousPubkey == None && p'.agents[id].previousExpiresAt == None
                        && p'.agents[id].state == reply.enrolled.value.1))
  {
  }

  /** The answer of the gate that stops a request, and of the upstream if none does. */
  lemma ResponsesExactly(env: Env, g: Gates, r: Incoming, now: Instant, reply: Option<UpstreamReply>)
    ensures var response := ResponseTo(env, g, r, now, reply);
            var allowed := Allowlist.IsAllowedAgentRoute(env.protocol, r.verb, r.path);
            var quota := WithinQuota(env, g, r, now);
            var fits := |r.body| <= Allowlist.MaxBodyBytes(env.protocol, r.verb, r.path);
            var refused := ValidateRequest(env, g, r, now).1;
            && (response == NotFound <==> !allowed && quota)
            && (response == NotReady <==> allowed && !g.proxy.forwarding)
            && (response == RateLimited <==> !quota && (!allowed || g.proxy.forwarding))
            && (response == TooLarge <==> allowed && g.proxy.forwarding && quota && !fits)
            && (response.Invalid? <==> allowed && g.proxy.forwarding && quota && fits && refused.Some?)
            && (response.Invalid? ==> Some(response.status) == refused)
            && (response == UpstreamError ==> reply == None)
            && (response.Answered? ==> Some(response.reply) == reply)
  {
    Allowlist.ClassExactly(env.protocol, r.verb, r.path);
  }

  /**
   What one request changes of the limiter and the replay cache: it is counted unless it finds the proxy not ready,
   and its nonce is recorded if it reaches the signature check and passes.
   */
  lemma TablesChangeExactly(env: Env, g: Gates, r: Incoming, now: Instant, reply: Option<UpstreamReply>)
    ensures var g' := Handle(env, g, r, now, reply).0;
            var response := ResponseTo(env, g, r, now, reply);
            var reached := Sent(response) || response.Invalid?;
            && g'.limits == (if response == NotReady then g.limits
                             else RateLimit.Check(g.limits, r.ip, ClassOf(env, r), now).0)
            && g'.nonces == (if reached && !(r.verb == Allowlist.POST && r.path == Allowlist.ENROLL)
                             then Validate.VerifySigned(env.crypto, g.proxy.agents, g.nonces, Signed(r), now).0
                             else g.nonces)
  {
    ResponsesExactly(env, g, r, now, reply);
    Allowlist.ClassExactly(env.protocol, r.verb, r.path);
    var c := ClassOf(env, r);
    var (limits, verdict) := RateLimit.Check(g.limits, r.ip, c, now);
    DecidedTables(env, g, r, c, limits, verdict, now, reply);
  }

  // ---------------------------------------------------------------- runs

  /**
   A request; an operator's unban; or anything the syncs and enrollments do to the shared identity, agents and tokens.
   */
  datatype Event =
    | Request(r: Incoming, reply: Option<UpstreamReply>, at: Instant)
    | Unban(ip: string, kind: RateLimit.Class, at: Instant)
    | Synced(proxy: Proxy, at: Instant)

  function Next(env: Env, g: Gates, e: Event): Gates {
    match e
    case Request(r, reply, at) => Handle(env, g, r, at, reply).0
    case Unban(ip, c, _) => g.(limits := RateLimit.Unban(g.limits, ip, c))
    case Synced(proxy, _) => g.(proxy := proxy)
  }

  predicate Ordered(events: seq<Event>, clock: Instant) {
    events == [] || (clock <= events[0].at && Ordered(events[1..], events[0].at))
  }

  predicate SendsFor(env: Env, g: Gates, e: Event, ip: string, c: RateLimit.Class, start: Instant) {
    && e.Request? && e.r.ip == ip && ClassOf(env, e.r) == c && start <= e.at < start + RateLimit.WINDOW
    && Sent(ResponseTo(env, g, e.r, e.at, e.reply))
  }

  /** Requests of one address and class sent upstream in the half-open minute that begins at `start`. */
  function SentIn(env: Env, g: Gates, events: seq<Event>, ip: string, c: RateLimit.Class, start: Instant): nat
    decreases |events|
  {
    if events == [] then 0
    else (if SendsFor(env, g, events[0], ip, c, start) then 1 else 0)
         + SentIn(env, Next(env, g, events[0]), events[1..], ip, c, start)
  }

  function UnbansIn(events: seq<Event>, ip: string, c: RateLimit.Class, start: Instant): nat {
    if events == [] then 0
    else
      var e := events[0];
      (if e.Unban? && e.ip == ip && e.kind == c && start <= e.at < start + RateLimit.WINDOW then 1 else 0)
      + UnbansIn(events[1..], ip, c, start)
  }

  /** What one event is to the limiter: at most one call. */
  function LimiterCall(env: Env, g: Gates, e: Event): seq<RateLimit.Event> {
    match e
    case Request(r, _, at) =>
      if ClassOf(env, r) == RateLimit.Unrecognized || g.proxy.forwarding
      then [RateLimit.Request(r.ip, ClassOf(env, r), at)] else []
    case Unban(ip, c, at) => [RateLimit.Clear(ip, c, at)]
    case Synced(_, _) => []
  }

  function LimiterRun(env: Env, g: Gates, events: seq<Event>): seq<RateLimit.Event>
    decreases |events|
  {
    if events == [] then [] else LimiterCall(env, g, events[0]) + LimiterRun(env, Next(env, g, events[0]), events[1..])
  }

  lemma {:induction false} LimiterRunOrdered(env: Env, g: Gates, events: seq<Event>, clock: Instant)
    requires Ordered(events, clock)
    ensures RateLimit.Ordered(LimiterRun(env, g, events), clock)
    decreases |events|
  {
    if events == [] {
    } else {
      LimiterRunOrdered(env, Next(env, g, events[0]), events[1..], events[0].at);
      var call, rest := LimiterCall(env, g, events[0]), LimiterRun(env, Next(env, g, events[0]), events[1..]);
      if call == [] {
        assert call + rest == rest;
        OrderedFromEarlier(rest, events[0].at, clock);
      } else {
        assert (call + rest)[1..] == rest;
      }
    }
  }

  lemma OrderedFromEarlier(calls: seq<RateLimit.Event>, clock: Instant, earlier: Instant)
    requires RateLimit.Ordered(calls, clock) && earlier <= clock
    ensures RateLimit.Ordered(calls, earlier)
  {
  }

  /** What the gates leave in the three tables. */
  lemma DecidedTables(env: Env, g: Gates, r: Incoming, c: RateLimit.Class, limits: RateLimit.Table,
                      verdict: RateLimit.Verdict, now: Instant, reply: Option<UpstreamReply>)
    ensures var (g', response) := Decide(env, g, r, c, limits, verdict, now, reply);
            && g'.limits == (if c == RateLimit.Unrecognized || g.proxy.forwarding then limits else g.limits)
            && g'.nonces == (if c != RateLimit.Unrecognized && g.proxy.forwarding && verdict == RateLimit.Admitted
                                && |r.body| <= Allowlist.MaxBodyBytes(env.protocol, r.verb, r.path)
                             then ValidateRequest(env, g, r, now).0 else g.nonces)
            && (!Sent(response) ==> g'.proxy == g.proxy)
            && (!Sent(response) && !response.Invalid? ==> g'.nonces == g.nonces)
  {
  }

  /** One event and its limiter call leave the same table. */
  lemma CallFollowsEvent(env: Env, g: Gates, e: Event)
    ensures |LimiterCall(env, g, e)| <= 1
    ensures Next(env, g, e).limits
         == if LimiterCall(env, g, e) == [] then g.limits else RateLimit.Apply(g.limits, LimiterCall(env, g, e)[0])
  {
    if e.Request? {
      var c := ClassOf(env, e.r);
      var (limits, verdict) := RateLimit.Check(g.limits, e.r.ip, c, e.at);
      DecidedTables(env, g, e.r, c, limits, verdict, e.at, e.reply);
    }
  }

  /** Nothing is sent that the limiter did not admit. */
  lemma SendingIsAdmitted(env: Env, g: Gates, e: Event, ip: string, c: RateLimit.Class, start: Instant)
    requires SendsFor(env, g, e, ip, c, start)
    ensures var call := LimiterCall(env, g, e);
            call != [] && RateLimit.Concerns(call[0], ip, c, start) && RateLimit.Admits(g.limits, call[0])
  {
  }

  lemma {:induction false} SentAreAdmitted(env: Env, g: Gates, events: seq<Event>, ip: string, c: RateLimit.Class,
                                           start: Instant)
    ensures SentIn(env, g, events, ip, c, start)
         <= RateLimit.AdmittedIn(g.limits, LimiterRun(env, g, events), ip, c, start)
    ensures UnbansIn(events, ip, c, start) == RateLimit.UnbansIn(LimiterRun(env, g, events), ip, c, start)
    decreases |events|
  {
    if events == [] {
    } else {
      var g' := Next(env, g, events[0]);
      var call, rest := LimiterCall(env, g, events[0]), LimiterRun(env, g', events[1..]);
      SentAreAdmitted(env, g', events[1..], ip, c, start);
      CallFollowsEvent(env, g, events[0]);
      if SendsFor(env, g, events[0], ip, c, start) {
        SendingIsAdmitted(env, g, events[0], ip, c, start);
      }
      if call == [] {
        assert call + rest == rest;
      } else {
        assert call + rest == [call[0]] + rest && (call + rest)[1..] == rest;
        RateLimit.AdmittedCons(g.limits, call[0], rest, ip, c, start);
      }
    }
  }

  /**
   Main result: whatever else happens, a minute sends at most twice the class limit upstream, plus one limit for each
   unban in it.
   */
  lemma SentWithinRate(env: Env, proxy: Proxy, events: seq<Event>, ip: string, c: RateLimit.Class, clock: Instant,
                       start: Instant)
    requires Ordered(events, clock)
    ensures SentIn(env, Gates(proxy, map[], map[]), events, ip, c, start)
         <= (2 + UnbansIn(events, ip, c, start)) * c.Limit()
  {
    var g := Gates(proxy, map[], map[]);
    LimiterRunOrdered(env, g, events, clock);
    SentAreAdmitted(env, g, events, ip, c, start);
    RateLimit.RateBound(LimiterRun(env, g, events), ip, c, clock, start);
  }

  // ---------------------------------------------------------------- replays

  predicate SendsSigned(env: Env, g: Gates, e: Event, key: Nonces.Key, timestampMs: int) {
    && e.Request? && !Allowlist.IsEnrollRoute(e.r.verb, e.r.path)
    && e.r.headers.agentId == Some(key.0) && e.r.headers.nonce == Some(key.1)
    && e.r.headers.timestampMs == Some(timestampMs)
    && Sent(ResponseTo(env, g, e.r, e.at, e.reply))
  }

  /** How often one signed request is sent upstream. */
  function SentSigned(env: Env, g: Gates, events: seq<Event>, key: Nonces.Key, timestampMs: int): nat
    decreases |events|
  {
    if events == [] then 0
    else (if SendsSigned(env, g, events[0], key, timestampMs) then 1 else 0)
         + SentSigned(env, Next(env, g, events[0]), events[1..], key, timestampMs)
  }

  /** Whether the request gets as far as the signature check. */
  predicate ReachesSignature(env: Env, g: Gates, r: Incoming, now: Instant) {
    && ClassOf(env, r) != RateLimit.Unrecognized && g.proxy.forwarding && WithinQuota(env, g, r, now)
    && |r.body| <= Allowlist.MaxBodyBytes(env.protocol, r.verb, r.path)
    && !Allowlist.IsEnrollRoute(r.verb, r.path)
  }

  function AttemptOf(env: Env, g: Gates, e: Event): seq<Validate.Attempt> {
    if e.Request? && ReachesSignature(env, g, e.r, e.at)
    then [Validate.Attempt(Signed(e.r), g.proxy.agents, e.at)]
    else []
  }

  function AttemptRun(env: Env, g: Gates, events: seq<Event>): seq<Validate.Attempt>
    decreases |events|
  {
    if events == [] then [] else AttemptOf(env, g, events[0]) + AttemptRun(env, Next(env, g, events[0]), events[1..])
  }

  /** Clock readings and timestamps in their ranges, as `Validate.WellTimed` asks. */
  predicate WellTimed(events: seq<Event>) {
    forall e <- events :: e.Request? ==>
      Validate.InClockRange(e.at) && (e.r.headers.timestampMs.Some? ==> Validate.IsI64(e.r.headers.timestampMs.value))
  }

  lemma {:induction false} AttemptsOrdered(env: Env, g: Gates, events: seq<Event>, clock: Instant)
    requires Ordered(events, clock) && WellTimed(events)
    ensures Validate.Ordered(AttemptRun(env, g, events), clock) && Validate.WellTimed(AttemptRun(env, g, events))
    decreases |events|
  {
    if events == [] {
    } else {
      var rest := AttemptRun(env, Next(env, g, events[0]), events[1..]);
      var first := AttemptOf(env, g, events[0]);
      AttemptsOrdered(env, Next(env, g, events[0]), events[1..], events[0].at);
      assert events[0] in events;
      if first == [] {
        assert first + rest == rest;
      } else {
        assert (first + rest)[1..] == rest;
        forall a | a in first + rest ensures a == first[0] || a in rest {}
      }
    }
  }

  lemma AttemptFollowsEvent(env: Env, g: Gates, e: Event)
    ensures |AttemptOf(env, g, e)| <= 1
    ensures Next(env, g, e).nonces
         == if AttemptOf(env, g, e) == [] then g.nonces
            else Validate.After(env.crypto, g.nonces, AttemptOf(env, g, e)[0])
  {
    if e.Request? {
      var c := ClassOf(env, e.r);
      var (limits, verdict) := RateLimit.Check(g.limits, e.r.ip, c, e.at);
      DecidedTables(env, g, e.r, c, limits, verdict, e.at, e.reply);
    }
  }

  lemma SendingIsAccepted(env: Env, g: Gates, e: Event, key: Nonces.Key, timestampMs: int)
    requires SendsSigned(env, g, e, key, timestampMs)
    ensures AttemptOf(env, g, e) != []
    ensures Validate.Accepts(env.crypto, g.nonces, AttemptOf(env, g, e)[0], key, timestampMs)
  {
  }

  lemma {:induction false} SentAreAccepted(env: Env, g: Gates, events: seq<Event>, key: Nonces.Key, timestampMs: int)
    ensures SentSigned(env, g, events, key, timestampMs)
         <= Validate.AcceptanceCount(env.crypto, g.nonces, AttemptRun(env, g, events), key, timestampMs)
    decreases |events|
  {
    if events == [] {
    } else {
      var g' := Next(env, g, events[0]);
      var first, rest := AttemptOf(env, g, events[0]), AttemptRun(env, g', events[1..]);
      SentAreAccepted(env, g', events[1..], key, timestampMs);
      AttemptFollowsEvent(env, g, events[0]);
      if SendsSigned(env, g, events[0], key, timestampMs) {
        SendingIsAccepted(env, g, events[0], key, timestampMs);
      }
      if first == [] {
        assert first + rest == rest;
      } else {
        assert (first + rest)[1..] == rest;
      }
    }
  }

  /**
   Main result: over every run, through syncs, revocations and key changes, one signed request goes upstream at most
   three times.
   */
  lemma SentAtMostThrice(env: Env, g: Gates, events: seq<Event>, key: Nonces.Key, timestampMs: int, clock: Instant)
    requires Ordered(events, clock) && WellTimed(events) && Validate.IsI64(timestampMs)
    ensures SentSigned(env, g, events, key, timestampMs) <= 3
  {
    AttemptsOrdered(env, g, events, clock);
    SentAreAccepted(env, g, events, key, timestampMs);
    Validate.ReplayBound(env.crypto, g.nonces, AttemptRun(env, g, events), key, timestampMs, clock);
  }
}
