/**
 Request validation of `validate.rs`: the signed-agent check with its clock-skew window,
 its choice of key and the replay cache, and the enrollment precheck.
 */
module Validate {
  import opened Text
  import opened Wrappers
  import Nonces

  type Instant = Nonces.Instant
  type AgentId = Nonces.AgentId
  type Bytes = seq<bv8>

  const MAX_CLOCK_SKEW_MS: int := 300_000
  const NS_PER_MS: int := 1_000_000
  const I64_SIGN: int := 0x8000_0000_0000_0000

  /** Latest wall-clock reading (ms) considered: five minutes short of the end of i64. */
  const CLOCK_MAX_MS: int := I64_SIGN - MAX_CLOCK_SKEW_MS - 1

  datatype AgentState = Revoked | NotRevoked

  datatype CachedAgent = CachedAgent(
    credentialPubkey: string,
    previousPubkey: Option<string>,
    previousExpiresAt: Option<Instant>,
    state: AgentState)

  datatype Status = Unauthorized | Forbidden | BadRequest

  /** What this model does not look into: signatures, canonical strings, digests, base64. */
  datatype Crypto = Crypto(
    verify: (string, string, string) -> bool,                     // public key, message, signature
    canonical: (string, string, Bytes, int, string) -> string,    // method, path, body, timestamp, nonce
    hmac: string -> string,
    decodedKeyLength: string -> Option<nat>)

  /** The four signing headers, `None` where one is missing or does not parse. */
  datatype SignedHeaders = SignedHeaders(
    agentId: Option<AgentId>,
    timestampMs: Option<int>,
    nonce: Option<string>,
    signature: Option<string>)

  // ---------------------------------------------------------------- clock skew on 64-bit integers

  predicate IsI64(x: int) {
    -I64_SIGN <= x < I64_SIGN
  }

  /** Two's-complement wrap-around of a 64-bit result. */
  function Wrap64(x: int): int {
    (x + I64_SIGN) % (2 * I64_SIGN) - I64_SIGN
  }

  /** `i64::abs` with wrap-around: the least value is its own absolute value. */
  function Abs64(x: int): int {
    if x < 0 then Wrap64(-x) else x
  }

  function Millis(now: Instant): int {
    now / NS_PER_MS
  }

  predicate SkewOk(nowMs: int, timestampMs: int) {
    !(Abs64(Wrap64(nowMs - timestampMs)) > MAX_CLOCK_SKEW_MS)
  }

  /**
   The skew test is the intended one except at the one timestamp exactly 2^63 ms in the past, whose distance
   overflows.
   */
  lemma SkewOkExactly(nowMs: int, timestampMs: int)
    requires 0 <= nowMs <= CLOCK_MAX_MS && IsI64(timestampMs)
    ensures SkewOk(nowMs, timestampMs) <==>
              -MAX_CLOCK_SKEW_MS <= nowMs - timestampMs <= MAX_CLOCK_SKEW_MS || nowMs - timestampMs == I64_SIGN
  {
    var d := nowMs - timestampMs;
    if d < I64_SIGN {
      assert Wrap64(d) == d;
    } else {
      assert (d + I64_SIGN) % (2 * I64_SIGN) == d - I64_SIGN;
      assert Wrap64(d) == d - 2 * I64_SIGN;
    }
  }

  /**
   The overflow is real at every moment: the timestamp exactly 2^63 ms in the past is a 64-bit integer, and passes.
   */
  lemma SkewOverflowWitness(nowMs: int)
    requires 0 <= nowMs <= CLOCK_MAX_MS
    ensures IsI64(nowMs - I64_SIGN) && SkewOk(nowMs, nowMs - I64_SIGN)
  {
    SkewOkExactly(nowMs, nowMs - I64_SIGN);
  }

  // ---------------------------------------------------------------- the signed-agent check

  /** `trim().is_empty()`. */
  predicate Blank(s: string) {
    forall c <- s :: IsWhitespace(c)
  }

  predicate SignatureVerifies(crypto: Crypto, agent: CachedAgent, message: string, signature: string, now: Instant) {
    crypto.verify(agent.credentialPubkey, message, signature)
    || (agent.previousPubkey.Some?
        && agent.previousExpiresAt.Some? && agent.previousExpiresAt.value > now
        && !Blank(agent.previousPubkey.value)
        && crypto.verify(agent.previousPubkey.value, message, signature))
  }

  /** A signed request as the validator sees it. */
  datatype SignedRequest = SignedRequest(method_: string, path: string, body: Bytes, headers: SignedHeaders)

  /** Everything up to the nonce: the error, or the agent id and nonce to record. */
  function CheckSignature(crypto: Crypto, agents: map<AgentId, CachedAgent>, r: SignedRequest,
                          now: Instant): Result<Nonces.Key, Status> {
    var h := r.headers;
    if h.agentId.None? || h.timestampMs.None? || h.nonce.None? || h.signature.None? then Failure(Unauthorized)
    else if !SkewOk(Millis(now), h.timestampMs.value) then Failure(Unauthorized)
    else if |h.nonce.value| == 0 || |h.nonce.value| > 128 then Failure(Unauthorized)
    else if h.agentId.value !in agents then Failure(Unauthorized)
    else
      var agent := agents[h.agentId.value];
      if agent.state == Revoked then Failure(Forbidden)
      else
        var message := crypto.canonical(r.method_, r.path, r.body, h.timestampMs.value, h.nonce.value);
        if !SignatureVerifies(crypto, agent, message, h.signature.value, now) then Failure(Unauthorized)
        else Success((h.agentId.value, h.nonce.value))
  }

  function VerifySigned(crypto: Crypto, agents: map<AgentId, CachedAgent>, nonces: Nonces.Table, r: SignedRequest,
                        now: Instant):
    (Nonces.Table, Option<Status>)
  {
    match CheckSignature(crypto, agents, r, now)
    case Failure(status) => (nonces, Some(status))
    case Success(key) =>
      var (nonces', recorded) := Nonces.Record(nonces, key, now);
      (nonces', if recorded then None else Some(Unauthorized))
  }

  /**
   Whether some key of the agent that is still good verifies the message: its own, or the previous one before its
   expiry.
   */
  ghost predicate VerifiesUnderLiveKey(crypto: Crypto, agent: CachedAgent, message: string, signature: string,
                                       now: Instant) {
    exists key :: crypto.verify(key, message, signature)
      && (key == agent.credentialPubkey
          || (&& agent.previousPubkey == Some(key) && !Blank(key)
              && agent.previousExpiresAt.Some? && now < agent.previousExpiresAt.value))
  }

  /** Exactly which signed requests are accepted. */
  lemma SignedAdmitsExactly(crypto: Crypto, agents: map<AgentId, CachedAgent>, nonces: Nonces.Table, r: SignedRequest,
                            now: Instant)
    ensures VerifySigned(crypto, agents, nonces, r, now).1 == None <==>
              var h := r.headers;
              && h.agentId.Some? && h.timestampMs.Some? && h.nonce.Some? && h.signature.Some?
              && SkewOk(Millis(now), h.timestampMs.value)
              && 1 <= |h.nonce.value| <= 128
              && h.agentId.value in agents && agents[h.agentId.value].state != Revoked
              && VerifiesUnderLiveKey(crypto, agents[h.agentId.value],
                   crypto.canonical(r.method_, r.path, r.body, h.timestampMs.value, h.nonce.value),
                   h.signature.value, now)
              && ((h.agentId.value, h.nonce.value) in nonces ==> nonces[(h.agentId.value, h.nonce.value)] <= now)
  {
    var h := r.headers;
    if h.agentId.Some? && h.timestampMs.Some? && h.nonce.Some? && h.signature.Some? && h.agentId.value in agents {
      var agent := agents[h.agentId.value];
      var message := crypto.canonical(r.method_, r.path, r.body, h.timestampMs.value, h.nonce.value);
      LiveKeys(crypto, agent, message, h.signature.value, now);
    }
  }

  /**
   Which refusal a signed request gets: forbidden exactly for a revoked agent that passed all earlier checks, else
   unauthorized.
   */
  lemma SignedRefusalsExactly(crypto: Crypto, agents: map<AgentId, CachedAgent>, nonces: Nonces.Table, r: SignedRequest,
                              now: Instant)
    ensures var h := r.headers;
            VerifySigned(crypto, agents, nonces, r, now).1 == Some(Forbidden) <==>
              && h.agentId.Some? && h.timestampMs.Some? && h.nonce.Some? && h.signature.Some?
              && SkewOk(Millis(now), h.timestampMs.value)
              && 1 <= |h.nonce.value| <= 128
              && h.agentId.value in agents && agents[h.agentId.value].state == Revoked
    ensures VerifySigned(crypto, agents, nonces, r, now).1 != Some(BadRequest)
  {
  }

  lemma LiveKeys(crypto: Crypto, agent: CachedAgent, message: string, signature: string, now: Instant)
    ensures SignatureVerifies(crypto, agent, message, signature, now) <==>
              VerifiesUnderLiveKey(crypto, agent, message, signature, now)
  {
    if SignatureVerifies(crypto, agent, message, signature, now) {
      var key := if crypto.verify(agent.credentialPubkey, message, signature) then agent.credentialPubkey
          else agent.previousPubkey.value;
      assert crypto.verify(key, message, signature);
    }
  }

  // ---------------------------------------------------------------- runs of signed requests

  /** A request, the instant it is checked and the agent table it finds then. */
  datatype Attempt = Attempt(request: SignedRequest, agents: map<AgentId, CachedAgent>, at: Instant)

  predicate Ordered(attempts: seq<Attempt>, clock: Instant) {
    attempts == [] || (clock <= attempts[0].at && Ordered(attempts[1..], attempts[0].at))
  }

  /** Clock readings within the range of `SkewOkExactly`. */
  predicate InClockRange(now: Instant) {
    0 <= Millis(now) <= CLOCK_MAX_MS
  }

  predicate WellTimed(attempts: seq<Attempt>) {
    forall a <- attempts ::
      InClockRange(a.at) && (a.request.headers.timestampMs.Some? ==> IsI64(a.request.headers.timestampMs.value))
  }

  function After(crypto: Crypto, nonces: Nonces.Table, a: Attempt): Nonces.Table {
    VerifySigned(crypto, a.agents, nonces, a.request, a.at).0
  }

  function Outcome(crypto: Crypto, nonces: Nonces.Table, a: Attempt): Option<Status> {
    VerifySigned(crypto, a.agents, nonces, a.request, a.at).1
  }

  function Outcomes(crypto: Crypto, nonces: Nonces.Table, attempts: seq<Attempt>): seq<Option<Status>>
    decreases |attempts|
  {
    if attempts == [] then []
    else [Outcome(crypto, nonces, attempts[0])] + Outcomes(crypto, After(crypto, nonces, attempts[0]), attempts[1..])
  }

  /** Whether the attempt presents this signed request: the same agent, nonce and timestamp. */
  predicate Presents(a: Attempt, key: Nonces.Key, timestampMs: int) {
    var h := a.request.headers;
    h.agentId == Some(key.0) && h.nonce == Some(key.1) && h.timestampMs == Some(timestampMs)
  }

  predicate Accepts(crypto: Crypto, nonces: Nonces.Table, a: Attempt, key: Nonces.Key, timestampMs: int) {
    Presents(a, key, timestampMs) && Outcome(crypto, nonces, a) == None
  }

  function AcceptanceCount(crypto: Crypto, nonces: Nonces.Table, attempts: seq<Attempt>, key: Nonces.Key,
                           timestampMs: int): nat
    decreases |attempts|
  {
    if attempts == [] then 0
    else (if Accepts(crypto, nonces, attempts[0], key, timestampMs) then 1 else 0)
         + AcceptanceCount(crypto, After(crypto, nonces, attempts[0]), attempts[1..], key, timestampMs)
  }

  /** First instant (inclusive) at which the timestamp passes the skew test. */
  function WindowStart(timestampMs: int): Instant {
    if timestampMs >= -MAX_CLOCK_SKEW_MS then (timestampMs - MAX_CLOCK_SKEW_MS) * NS_PER_MS
    else (timestampMs + I64_SIGN) * NS_PER_MS
  }

  /** Last instant (exclusive) of that window: ten minutes and one millisecond, or one millisecond at the overflow. */
  function WindowEnd(timestampMs: int): Instant {
    if timestampMs >= -MAX_CLOCK_SKEW_MS then (timestampMs + MAX_CLOCK_SKEW_MS + 1) * NS_PER_MS
    else (timestampMs + I64_SIGN + 1) * NS_PER_MS
  }

  lemma SkewWindow(now: Instant, timestampMs: int)
    requires InClockRange(now) && IsI64(timestampMs) && SkewOk(Millis(now), timestampMs)
    ensures WindowStart(timestampMs) <= now < WindowEnd(timestampMs)
  {
    SkewOkExactly(Millis(now), timestampMs);
  }

  /** Earliest instant from which the key can be accepted again. */
  function NextChance(nonces: Nonces.Table, key: Nonces.Key, timestampMs: int, clock: Instant): Instant {
    var free := if key in nonces && nonces[key] > clock then nonces[key] else clock;
    if free < WindowStart(timestampMs) then WindowStart(timestampMs) else free
  }

  /** How often the signed request can still be accepted: one per TTL in what is left of its window. */
  function Remaining(nonces: Nonces.Table, key: Nonces.Key, timestampMs: int, clock: Instant): nat {
    var next := NextChance(nonces, key, timestampMs, clock);
    if next >= WindowEnd(timestampMs) then 0 else 1 + (WindowEnd(timestampMs) - 1 - next) / Nonces.TTL
  }

  lemma LaterChancesAreFewer(end: int, next: int, next': int)
    requires next <= next'
    ensures (if next' >= end then 0 else 1 + (end - 1 - next') / Nonces.TTL)
         <= (if next >= end then 0 else 1 + (end - 1 - next) / Nonces.TTL)
    ensures next' >= next + Nonces.TTL && next < end ==>
              1 + (if next' >= end then 0 else 1 + (end - 1 - next') / Nonces.TTL) <= 1 + (end - 1 - next) / Nonces.TTL
  {
  }

  /** One attempt uses up a chance if it is accepted, and never creates one. */
  lemma StepUsesChance(crypto: Crypto, nonces: Nonces.Table, a: Attempt, key: Nonces.Key, timestampMs: int,
                       clock: Instant)
    requires clock <= a.at && WellTimed([a]) && IsI64(timestampMs)
    ensures (if Accepts(crypto, nonces, a, key, timestampMs) then 1 else 0)
            + Remaining(After(crypto, nonces, a), key, timestampMs, a.at)
         <= Remaining(nonces, key, timestampMs, clock)
  {
    var end := WindowEnd(timestampMs);
    var nonces' := After(crypto, nonces, a);
    var next, now, next' := NextChance(nonces, key, timestampMs, clock), NextChance(nonces, key, timestampMs, a.at),
                            NextChance(nonces', key, timestampMs, a.at);
    assert a in [a];
    LaterChancesAreFewer(end, next, now);
    LaterChancesAreFewer(end, now, next');
    if Accepts(crypto, nonces, a, key, timestampMs) {
      SkewWindow(a.at, timestampMs);
    }
  }

  lemma {:induction false} AcceptancesUseChances(crypto: Crypto, nonces: Nonces.Table, attempts: seq<Attempt>,
                                                 key: Nonces.Key, timestampMs: int, clock: Instant)
    requires Ordered(attempts, clock) && WellTimed(attempts) && IsI64(timestampMs)
    ensures AcceptanceCount(crypto, nonces, attempts, key, timestampMs) <= Remaining(nonces, key, timestampMs, clock)
    decreases |attempts|
  {
    if attempts == [] {
    } else {
      assert attempts[0] in attempts;
      StepUsesChance(crypto, nonces, attempts[0], key, timestampMs, clock);
      AcceptancesUseChances(crypto, After(crypto, nonces, attempts[0]), attempts[1..], key, timestampMs,
          attempts[0].at);
    }
  }

  /** Main result: in every run one signed request is accepted at most three times. */
  lemma ReplayBound(crypto: Crypto, nonces: Nonces.Table, attempts: seq<Attempt>, key: Nonces.Key, timestampMs: int,
                    clock: Instant)
    requires Ordered(attempts, clock) && WellTimed(attempts) && IsI64(timestampMs)
    ensures AcceptanceCount(crypto, nonces, attempts, key, timestampMs) <= 3
  {
    AcceptancesUseChances(crypto, nonces, attempts, key, timestampMs, clock);
    var start, end := WindowStart(timestampMs), WindowEnd(timestampMs);
    assert end - start <= (2 * MAX_CLOCK_SKEW_MS + 1) * NS_PER_MS;
    LaterChancesAreFewer(end, start, NextChance(nonces, key, timestampMs, clock));
    assert (end - 1 - start) / Nonces.TTL <= 2;
  }

  /** The first acceptance in the run, if there is one, comes strictly after the request's own timestamp. */
  predicate FirstAcceptanceIsLate(crypto: Crypto, nonces: Nonces.Table, attempts: seq<Attempt>, key: Nonces.Key,
                                  timestampMs: int)
    decreases |attempts|
  {
    attempts == []
    || (if Accepts(crypto, nonces, attempts[0], key, timestampMs) then Millis(attempts[0].at) > timestampMs
        else FirstAcceptanceIsLate(crypto, After(crypto, nonces, attempts[0]), attempts[1..], key, timestampMs))
  }

  /** First accepted after its own timestamp, a signed request is never accepted again. */
  lemma {:induction false} LateFirstAcceptanceIsTheOnlyOne(crypto: Crypto, nonces: Nonces.Table,
                                                           attempts: seq<Attempt>, key: Nonces.Key,
                                                           timestampMs: int, clock: Instant)
    requires Ordered(attempts, clock) && WellTimed(attempts) && IsI64(timestampMs)
    requires FirstAcceptanceIsLate(crypto, nonces, attempts, key, timestampMs)
    ensures AcceptanceCount(crypto, nonces, attempts, key, timestampMs) <= 1
    decreases |attempts|
  {
    if attempts == [] {
    } else {
      var a, rest := attempts[0], attempts[1..];
      var nonces' := After(crypto, nonces, a);
      assert a in attempts;
      if Accepts(crypto, nonces, a, key, timestampMs) {
        AcceptancesUseChances(crypto, nonces', rest, key, timestampMs, a.at);
        SkewWindow(a.at, timestampMs);
        assert nonces'[key] == a.at + Nonces.TTL;
        assert Remaining(nonces', key, timestampMs, a.at) == 0;
      } else {
        LateFirstAcceptanceIsTheOnlyOne(crypto, nonces', rest, key, timestampMs, a.at);
      }
    }
  }

  /** The instant `k` skews away from the timestamp. */
  function AtSkew(timestampMs: int, k: int): Instant {
    (timestampMs + k * MAX_CLOCK_SKEW_MS) * NS_PER_MS
  }

  /**
   The bound is attained: a request that verifies at both ends and in the middle of its window is accepted each time.
   */
  lemma ReplayBoundIsTight(crypto: Crypto, agents: map<AgentId, CachedAgent>, r: SignedRequest, key: Nonces.Key,
                           timestampMs: int)
    requires r.headers.timestampMs == Some(timestampMs)
    requires CheckSignature(crypto, agents, r, AtSkew(timestampMs, -1)) == Success(key)
    requires CheckSignature(crypto, agents, r, AtSkew(timestampMs, 0)) == Success(key)
    requires CheckSignature(crypto, agents, r, AtSkew(timestampMs, 1)) == Success(key)
    ensures var attempts := [Attempt(r, agents, AtSkew(timestampMs, -1)), Attempt(r, agents, AtSkew(timestampMs, 0)),
                             Attempt(r, agents, AtSkew(timestampMs, 1))];
            && Ordered(attempts, AtSkew(timestampMs, -1))
            && AcceptanceCount(crypto, map[], attempts, key, timestampMs) == 3
  {
    var first, second, third := Attempt(r, agents, AtSkew(timestampMs, -1)), Attempt(r, agents, AtSkew(timestampMs, 0)),
                                Attempt(r, agents, AtSkew(timestampMs, 1));
    var attempts := [first, second, third];
    assert first.at + Nonces.TTL == second.at && second.at + Nonces.TTL == third.at;
    assert attempts[1..] == [second, third] && [second, third][1..] == [third] && [third][1..] == [];
    assert Ordered([third], second.at) && Ordered([second, third], first.at);
    assert Presents(first, key, timestampMs) && Presents(second, key, timestampMs) && Presents(third, key, timestampMs);
    var afterFirst := After(crypto, map[], first);
    assert Accepts(crypto, map[], first, key, timestampMs) && afterFirst == map[key := second.at];
    var afterSecond := After(crypto, afterFirst, second);
    assert Accepts(crypto, afterFirst, second, key, timestampMs) && afterSecond == map[key := third.at];
    assert Accepts(crypto, afterSecond, third, key, timestampMs);
    assert AcceptanceCount(crypto, afterSecond, [third], key, timestampMs) == 1;
    assert AcceptanceCount(crypto, afterFirst, [second, third], key, timestampMs) == 2;
  }

  // ---------------------------------------------------------------- rejected requests leave no trace

  lemma {:induction false} SameUnexpiredSameOutcomes(crypto: Crypto, t: Nonces.Table, u: Nonces.Table,
                                                     attempts: seq<Attempt>, clock: Instant)
    requires Ordered(attempts, clock) && Nonces.Unexpired(t, clock) == Nonces.Unexpired(u, clock)
    ensures Outcomes(crypto, t, attempts) == Outcomes(crypto, u, attempts)
    decreases |attempts|
  {
    if attempts == [] {
    } else {
      var now := attempts[0].at;
      UnexpiredLater(t, u, clock, now);
      SameUnexpiredSameOutcomes(crypto, After(crypto, t, attempts[0]), After(crypto, u, attempts[0]), attempts[1..],
          now);
    }
  }

  lemma UnexpiredLater(t: Nonces.Table, u: Nonces.Table, clock: Instant, now: Instant)
    requires clock <= now && Nonces.Unexpired(t, clock) == Nonces.Unexpired(u, clock)
    ensures Nonces.Unexpired(t, now) == Nonces.Unexpired(u, now)
  {
    forall k
      ensures k in Nonces.Unexpired(t, now) <==> k in Nonces.Unexpired(u, now)
      ensures k in Nonces.Unexpired(t, now) ==> t[k] == u[k]
    {
      assert k in Nonces.Unexpired(t, clock) <==> k in Nonces.Unexpired(u, clock);
    }
  }

  /** A rejected request, at whatever step it was rejected, changes no later answer. */
  lemma RejectedRequestsLeaveNoTrace(crypto: Crypto, nonces: Nonces.Table, rejected: Attempt, later: seq<Attempt>)
    requires Outcome(crypto, nonces, rejected).Some? && Ordered(later, rejected.at)
    ensures Outcomes(crypto, After(crypto, nonces, rejected), later) == Outcomes(crypto, nonces, later)
  {
    SameUnexpiredSameOutcomes(crypto, After(crypto, nonces, rejected), nonces, later, rejected.at);
  }

  // ---------------------------------------------------------------- enrollment precheck

  datatype EnrollRequest = EnrollRequest(enrollmentToken: string, agentId: Option<AgentId>, publicKey: string)

  datatype EnrollmentToken = EnrollmentToken(expiresAt: Option<Instant>, used: bool, boundMachineId: Option<AgentId>)

  predicate TokenShaped(token: string) {
    |token| == 52 && token[..4] == "enr_" && forall c <- token[4..] :: IsHexDigit(c)
  }

  /** `request` is the decoded body, `None` if it is not one. */
  function PrecheckEnroll(crypto: Crypto, tokens: map<string, EnrollmentToken>, request: Option<EnrollRequest>,
                          now: Instant): Option<Status> {
    if request.None? then Some(BadRequest)
    else
      var r := request.value;
      if !("enr_" <= r.enrollmentToken) then Some(Unauthorized)
      else if |r.enrollmentToken[4..]| != 48 then Some(Unauthorized)
      else if exists c <- r.enrollmentToken[4..] :: !IsHexDigit(c) then Some(Unauthorized)
      else if crypto.decodedKeyLength(r.publicKey) != Some(32) then Some(BadRequest)
      else
        var key := crypto.hmac(r.enrollmentToken);
        if key !in tokens then Some(Unauthorized)
        else
          var token := tokens[key];
          if token.expiresAt.None? || token.expiresAt.value <= now then Some(Unauthorized)
          else if token.used then Some(Unauthorized)
          else
            match (token.boundMachineId, r.agentId)
            case (Some(bound), Some(agentId)) => if bound != agentId then Some(Unauthorized) else None
            case (None, Some(_)) => Some(Unauthorized)
            case _ => None
  }

  /** A live, unused token, and no machine in the request but the one the token is bound to. */
  predicate Redeemable(token: EnrollmentToken, agentId: Option<AgentId>, now: Instant) {
    token.expiresAt.Some? && token.expiresAt.value > now && !token.used
    && (agentId.Some? ==> token.boundMachineId == agentId)
  }

  /** Exactly what lets an enrollment through. */
  lemma PrecheckAdmitsExactly(crypto: Crypto, tokens: map<string, EnrollmentToken>, request: Option<EnrollRequest>,
                              now: Instant)
    ensures PrecheckEnroll(crypto, tokens, request, now) == None <==>
              && request.Some?
              && TokenShaped(request.value.enrollmentToken)
              && crypto.decodedKeyLength(request.value.publicKey) == Some(32)
              && crypto.hmac(request.value.enrollmentToken) in tokens
              && Redeemable(tokens[crypto.hmac(request.value.enrollmentToken)], request.value.agentId, now)
  {
    if request.Some? {
      var t := request.value.enrollmentToken;
      assert "enr_" <= t <==> |t| >= 4 && t[..4] == "enr_";
    }
  }

  /**
   Which refusal an enrollment gets: a bad request exactly for a body or a key that does not decode, else
   unauthorized.
   */
  lemma PrecheckRefusalsExactly(crypto: Crypto, tokens: map<string, EnrollmentToken>, request: Option<EnrollRequest>,
                                now: Instant)
    ensures PrecheckEnroll(crypto, tokens, request, now) == Some(BadRequest) <==>
              || request.None?
              || (&& TokenShaped(request.value.enrollmentToken)
                  && crypto.decodedKeyLength(request.value.publicKey) != Some(32))
    ensures PrecheckEnroll(crypto, tokens, request, now) != Some(Forbidden)
  {
    if request.Some? {
      var t := request.value.enrollmentToken;
      assert "enr_" <= t <==> |t| >= 4 && t[..4] == "enr_";
    }
  }
}
