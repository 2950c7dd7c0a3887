/**
 The proxy's credentials: the key and id on disk, the ones in memory, what the upstream
 holds, and the forwarding flag.  Each function below is one exchange of `sync.rs` or one
 operation of `state.rs`, for every answer the upstream may give; the methods of
 `Sync.dfy` are proved against them.
 */
module Credentials {
  import opened Wrappers
  import RateLimit
  import Validate

  /** A signing keypair, named by its public half. */
  type Key = nat

  type ProxyId = string
  type AgentTable = map<Validate.AgentId, Validate.CachedAgent>

  datatype Settings = Settings(enrollmentToken: Option<string>, forceReenroll: bool, hmac: string -> string)

  /** `upstream` is the last key the upstream filed for each proxy; no operation reads it. */
  datatype Proxy = Proxy(
    diskKey: Option<Key>,
    diskId: Option<ProxyId>,
    memKey: Key,
    memId: Option<ProxyId>,
    forwarding: bool,
    agents: AgentTable,
    enrollmentTokens: map<string, Validate.EnrollmentToken>,
    proxyTokens: map<string, Option<ProxyId>>,
    upstream: map<ProxyId, Key>)

  datatype Error =
    | NotEnrolled
    | TokenRequired
    | ForceNeedsToken
    | NoAnswer
    | BadAnswer
    | BoundElsewhere
    | TokenRejected
    | EnrollFailed(code: nat, genericToken: bool)
    | DifferentId
    | SyncForbidden
    | SyncFailed(code: nat)
    | HeartbeatForbidden
    | HeartbeatFailed(code: nat)

  /** `None` is success. */
  type Outcome = Option<Error>

  datatype Enrollment = Enrollment(proxyId: ProxyId, active: bool)

  /** An answer to an enroll request: `genericToken` if its text says that a generic token takes no id. */
  datatype EnrollReply = NoEnrollReply | EnrollAnswer(code: nat, genericToken: bool, decoded: Option<Enrollment>)

  /** What the upstream answers, and under which id it filed the key of the request, if at all. */
  datatype Exchange = Exchange(reply: EnrollReply, filed: Option<ProxyId>)

  datatype Payload = Payload(
    agents: seq<(Validate.AgentId, Validate.CachedAgent)>,
    enrollmentTokens: seq<(string, Validate.EnrollmentToken)>,
    proxyTokens: seq<(string, Option<ProxyId>)>,
    unbans: seq<(string, RateLimit.Class)>)

  datatype SyncReply = NoSyncReply | SyncAnswer(code: nat, decoded: Option<Payload>)

  datatype HeartbeatReply = NoHeartbeatReply | HeartbeatAnswer(code: nat)

  predicate IsSuccess(code: nat) {
    200 <= code < 300
  }

  // ---------------------------------------------------------------- enrolling

  function File(upstream: map<ProxyId, Key>, filed: Option<ProxyId>, key: Key): map<ProxyId, Key> {
    if filed.Some? then upstream[filed.value := key] else upstream
  }

  /** What `post_proxy_enroll` returns. */
  function EnrollResult(asked: Option<ProxyId>, reply: EnrollReply): Result<Enrollment, Error> {
    match reply
    case NoEnrollReply => Failure(NoAnswer)
    case EnrollAnswer(code, genericToken, decoded) =>
      if code == 401 && asked.Some? then Failure(TokenRejected)
      else if !IsSuccess(code) then Failure(EnrollFailed(code, genericToken))
      else if decoded.None? then Failure(BadAnswer)
      else Success(decoded.value)
  }

  /** `post_proxy_enroll`: a first enrollment stores the id it was given, and a pending one stops forwarding. */
  function PostEnroll(p: Proxy, asked: Option<ProxyId>, key: Key, x: Exchange): (Proxy, Result<Enrollment, Error>) {
    var result := EnrollResult(asked, x.reply);
    var heard := p.(upstream := File(p.upstream, x.filed, key));
    if result.Failure? || asked.Some? then (heard, result)
    else
      (heard.(diskId := Some(result.value.proxyId), memId := Some(result.value.proxyId),
              forwarding := heard.forwarding && result.value.active), result)
  }

  /** `enroll_if_needed`. */
  function Enroll(p: Proxy, settings: Settings, x: Exchange): (Proxy, Outcome) {
    if settings.enrollmentToken.None? then (p, Some(TokenRequired))
    else
      var (p', result) := PostEnroll(p, None, p.memKey, x);
      (p', if result.Failure? then Some(result.error) else None)
  }

  predicate BoundToAnother(p: Proxy, settings: Settings) {
    settings.enrollmentToken.Some? &&
    var token := settings.hmac(settings.enrollmentToken.value);
    token in p.proxyTokens && p.proxyTokens[token].Some? && p.proxyTokens[token] != p.memId
  }

  /** Whether `reenroll_if_needed` gets as far as asking the upstream. */
  predicate Asks(p: Proxy, settings: Settings) {
    settings.enrollmentToken.Some? && p.memId.Some? && !BoundToAnother(p, settings)
  }

  /** `reenroll_if_needed`: a new key, kept only if the upstream accepts it for the same id. */
  function Reenroll(p: Proxy, settings: Settings, newKey: Key, x: Exchange): (Proxy, Outcome) {
    if settings.enrollmentToken.None? || p.memId.None? then (p, None)
    else if BoundToAnother(p, settings) then (p, Some(BoundElsewhere))
    else
      var (heard, result) := PostEnroll(p, p.memId, newKey, x);
      if result.Failure? then (heard, Some(result.error))
      else if Some(result.value.proxyId) != p.memId then (heard, Some(DifferentId))
      else (heard.(diskKey := Some(newKey), memKey := newKey), None)
  }

  /** `clear_proxy_identity`, through `forget_proxy_identity`. */
  function Reset(p: Proxy, newKey: Key): Proxy {
    var forgot := p.(diskId := None, memId := None, forwarding := false);
    if p.diskId.Some? || p.diskKey.Some? then forgot.(diskKey := Some(newKey), memKey := newKey) else forgot
  }

  /** `should_reset_identity_for_enroll`. */
  predicate ShouldReset(error: Error) {
    match error
    case TokenRejected => true
    case EnrollFailed(code, genericToken) => genericToken || code == 400 || code == 401 || code == 404
    case _ => false
  }

  /** What the upstream and the key generator contribute to one start of the proxy. */
  datatype Inputs = Inputs(firstSync: SyncReply, reenroll: Exchange, newKey: Key, resetKey: Key, enroll: Exchange,
                           lastSync: SyncReply)

  /** `try_reenroll`. */
  function TryReenroll(p: Proxy, settings: Settings, i: Inputs): (Proxy, Outcome) {
    var (p', outcome) := Reenroll(p, settings, i.newKey, i.reenroll);
    if outcome.Some? && ShouldReset(outcome.value) then Enroll(Reset(p', i.resetKey), settings, i.enroll)
    else (p', outcome)
  }

  // ---------------------------------------------------------------- syncing

  /** A table filled entry by entry: the last entry of a key stays. */
  function FromList<K, V>(entries: seq<(K, V)>): map<K, V> {
    if entries == [] then map[]
    else FromList(entries[..|entries| - 1])[entries[|entries| - 1].0 := entries[|entries| - 1].1]
  }

  function ApplyPayload(p: Proxy, payload: Payload): Proxy {
    p.(agents := FromList(payload.agents),
       enrollmentTokens := FromList(payload.enrollmentTokens),
       proxyTokens := FromList(payload.proxyTokens),
       forwarding := true)
  }

  /** `run_once`, but for the unbans. */
  function Sync(p: Proxy, reply: SyncReply): (Proxy, Outcome) {
    if p.memId.None? then (p, Some(NotEnrolled))
    else
      match reply
      case NoSyncReply => (p, Some(NoAnswer))
      case SyncAnswer(code, decoded) =>
        if code == 403 then (p.(forwarding := false), Some(SyncForbidden))
        else if !IsSuccess(code) then (p, Some(SyncFailed(code)))
        else if decoded.None? then (p, Some(BadAnswer))
        else (ApplyPayload(p, decoded.value), None)
  }

  /** `heartbeat_once`. */
  function Heartbeat(p: Proxy, reply: HeartbeatReply): (Proxy, Outcome) {
    if p.memId.None? || !p.forwarding then (p, None)
    else
      match reply
      case NoHeartbeatReply => (p, Some(NoAnswer))
      case HeartbeatAnswer(code) =>
        if code == 403 then (p.(forwarding := false), Some(HeartbeatForbidden))
        else if !IsSuccess(code) then (p, Some(HeartbeatFailed(code)))
        else (p, None)
  }

  /** `bootstrap`. */
  function Bootstrap(p: Proxy, settings: Settings, i: Inputs): (Proxy, Outcome) {
    if p.memId.None? then
      var (p1, enrolled) := Enroll(p, settings, i.enroll);
      if enrolled.Some? then (p1, enrolled) else Sync(p1, i.lastSync)
    else if settings.forceReenroll then
      if settings.enrollmentToken.None? then (p, Some(ForceNeedsToken))
      else
        var (p1, reenrolled) := TryReenroll(p, settings, i);
        if reenrolled.Some? then (p1, reenrolled) else Sync(p1, i.lastSync)
    else
      var (p1, synced) := Sync(p, i.firstSync);
      if settings.enrollmentToken.Some? && synced == Some(SyncFailed(401)) then
        var (p2, reenrolled) := TryReenroll(p1, settings, i);
        if reenrolled.Some? then (p2, reenrolled) else Sync(p2, i.lastSync)
      else (p1, synced)
  }

  /** The process starts: `load_or_generate` for the key, the id from disk, empty tables. */
  function Start(p: Proxy, generated: Key): Proxy {
    var key := if p.diskKey.Some? then p.diskKey.value else generated;
    Proxy(Some(key), p.diskId, key, p.diskId, false, map[], map[], map[], p.upstream)
  }

  // ---------------------------------------------------------------- agreement

  /** Memory and disk agree. */
  predicate LocallyAgreed(p: Proxy) {
    p.diskKey == Some(p.memKey) && p.diskId == p.memId
  }

  /** The upstream holds the key for the id in use. */
  predicate UpstreamAgrees(p: Proxy) {
    p.memId.Some? ==> p.memId.value in p.upstream && p.upstream[p.memId.value] == p.memKey
  }

  predicate Agreed(p: Proxy) {
    LocallyAgreed(p) && UpstreamAgrees(p)
  }

  predicate SameCredentials(p: Proxy, q: Proxy) {
    p.diskKey == q.diskKey && p.diskId == q.diskId && p.memKey == q.memKey && p.memId == q.memId
  }

  /** The answer accepts a key for the id asked for. */
  predicate AcceptsFor(asked: Option<ProxyId>, reply: EnrollReply) {
    EnrollResult(asked, reply).Success? && Some(EnrollResult(asked, reply).value.proxyId) == asked
  }

  /** A refusal, of whatever kind, leaves every credential and every table as it was. */
  lemma RefusedReenrollChangesNothing(p: Proxy, settings: Settings, newKey: Key, x: Exchange)
    requires Reenroll(p, settings, newKey, x).1.Some?
    ensures Reenroll(p, settings, newKey, x).0.(upstream := p.upstream) == p
  {
  }

  /**
   When a re-enrollment keeps agreement, for every answer and whatever the upstream did with the key: exactly
   when it filed the new key for this proxy if and only if an acceptance for this proxy arrives.  A reply lost
   after the key was filed breaks it.
   */
  lemma ReenrollAgreementExact(p: Proxy, settings: Settings, newKey: Key, x: Exchange)
    requires Agreed(p) && Asks(p, settings) && newKey != p.memKey
    ensures Agreed(Reenroll(p, settings, newKey, x).0) <==> (x.filed == p.memId <==> AcceptsFor(p.memId, x.reply))
    ensures Reenroll(p, settings, newKey, x).1 == None <==> AcceptsFor(p.memId, x.reply)
  {
  }

  /** After a successful exchange the new key is on disk, in memory and at the upstream. */
  lemma AcceptedReenrollAgrees(p: Proxy, settings: Settings, newKey: Key, x: Exchange)
    requires Asks(p, settings) && Reenroll(p, settings, newKey, x).1 == None && x.filed == p.memId
    ensures var p' := Reenroll(p, settings, newKey, x).0;
            && p'.diskKey == Some(newKey) && p'.memKey == newKey && p'.upstream[p.memId.value] == newKey
            && p'.memId == p.memId && p'.diskId == p.diskId
  {
  }

  /** A reset forgets the id everywhere and rotates the keys on disk and in memory together, if anything was on disk. */
  lemma ResetAgreement(p: Proxy, newKey: Key)
    ensures var p' := Reset(p, newKey);
            && p'.memId == None && p'.diskId == None && !p'.forwarding
            && (p.diskKey.Some? || p.diskId.Some? ==> p'.diskKey == Some(newKey) && p'.memKey == newKey)
            && (p'.diskKey == Some(p'.memKey) <==> p.diskKey.Some? || p.diskId.Some?)
  {
  }

  /** One step of the credential protocol; any of them may come between the steps of a bootstrap. */
  datatype Event =
    | Restarted(generated: Key)
    | Enrolled(x: Exchange)
    | Reenrolled(newKey: Key, x: Exchange)
    | WasReset(newKey: Key)
    | Synced(reply: SyncReply)
    | HeartbeatSent(beat: HeartbeatReply)

  function Apply(p: Proxy, settings: Settings, e: Event): Proxy {
    match e
    case Restarted(generated) => Start(p, generated)
    case Enrolled(x) => Enroll(p, settings, x).0
    case Reenrolled(newKey, x) => Reenroll(p, settings, newKey, x).0
    case WasReset(newKey) => Reset(p, newKey)
    case Synced(reply) => Sync(p, reply).0
    case HeartbeatSent(beat) => Heartbeat(p, beat).0
  }

  function Run(p: Proxy, settings: Settings, events: seq<Event>): Proxy
    decreases |events|
  {
    if events == [] then p else Run(Apply(p, settings, events[0]), settings, events[1..])
  }

  lemma LocalAgreementStep(p: Proxy, settings: Settings, e: Event)
    requires LocallyAgreed(p)
    ensures LocallyAgreed(Apply(p, settings, e))
  {
  }

  lemma {:induction false} LocalAgreementRun(p: Proxy, settings: Settings, events: seq<Event>)
    requires LocallyAgreed(p)
    ensures LocallyAgreed(Run(p, settings, events))
    decreases |events|
  {
    if events == [] {
    } else {
      LocalAgreementStep(p, settings, events[0]);
      LocalAgreementRun(Apply(p, settings, events[0]), settings, events[1..]);
    }
  }

  /**
   Memory and disk agree in every run, whatever the upstream answers, files or loses, from whatever is on disk at the
   start.
   */
  lemma DiskAndMemoryAgree(p: Proxy, generated: Key, settings: Settings, events: seq<Event>)
    ensures LocallyAgreed(Run(Start(p, generated), settings, events))
  {
    LocalAgreementRun(Start(p, generated), settings, events);
  }

  /**
   The condition on one exchange: an acceptance of a first enrollment is filed for the id it gives, or the
   upstream holds the key for that id already; a re-enrollment is filed for this proxy if and only if it is
   accepted for this proxy.  The other events make no exchange of keys.
   */
  predicate FiledAsAnswered(p: Proxy, settings: Settings, e: Event) {
    match e
    case Enrolled(x) =>
      settings.enrollmentToken.Some? && EnrollResult(None, x.reply).Success? ==>
        var id := EnrollResult(None, x.reply).value.proxyId;
        x.filed == Some(id) || (id in p.upstream && p.upstream[id] == p.memKey)
    case Reenrolled(newKey, x) =>
      Asks(p, settings) && newKey != p.memKey ==> (x.filed == p.memId <==> AcceptsFor(p.memId, x.reply))
    case _ => true
  }

  /** One event keeps all three in agreement exactly under that condition. */
  lemma AgreementStep(p: Proxy, settings: Settings, e: Event)
    requires Agreed(p)
    ensures Agreed(Apply(p, settings, e)) <==> FiledAsAnswered(p, settings, e)
  {
    match e
    case Enrolled(x) => EnrollAgreementExact(p, settings, x);
    case Reenrolled(newKey, x) => ReenrollAgreement(p, settings, newKey, x);
    case _ =>
  }

  /** A first enrollment that is accepted needs its key filed under the id it was given; a refused one needs nothing. */
  lemma EnrollAgreementExact(p: Proxy, settings: Settings, x: Exchange)
    requires Agreed(p)
    ensures Agreed(Enroll(p, settings, x).0) <==> FiledAsAnswered(p, settings, Enrolled(x))
  {
  }

  lemma ReenrollAgreement(p: Proxy, settings: Settings, newKey: Key, x: Exchange)
    requires Agreed(p)
    ensures Agreed(Reenroll(p, settings, newKey, x).0) <==> FiledAsAnswered(p, settings, Reenrolled(newKey, x))
  {
    if Asks(p, settings) && newKey != p.memKey {
      ReenrollAgreementExact(p, settings, newKey, x);
    }
  }

  predicate AgreedThroughout(p: Proxy, settings: Settings, events: seq<Event>)
    decreases |events|
  {
    Agreed(p) && (events == [] || AgreedThroughout(Apply(p, settings, events[0]), settings, events[1..]))
  }

  predicate FiledThroughout(p: Proxy, settings: Settings, events: seq<Event>)
    decreases |events|
  {
    || events == []
    || (&& FiledAsAnswered(p, settings, events[0])
        && FiledThroughout(Apply(p, settings, events[0]), settings, events[1..]))
  }

  /**
   Main result: disk, memory and upstream agree after every step of a run exactly if every exchange is filed as
   answered.
   */
  lemma {:induction false} CredentialAgreement(p: Proxy, settings: Settings, events: seq<Event>)
    requires Agreed(p)
    ensures AgreedThroughout(p, settings, events) <==> FiledThroughout(p, settings, events)
    ensures FiledThroughout(p, settings, events) ==> Agreed(Run(p, settings, events))
    decreases |events|
  {
    if events == [] {
    } else {
      var p' := Apply(p, settings, events[0]);
      AgreementStep(p, settings, events[0]);
      if Agreed(p') {
        CredentialAgreement(p', settings, events[1..]);
      }
    }
  }

  // ---------------------------------------------------------------- the forwarding flag

  /** A successful sync. */
  predicate TurnsOn(p: Proxy, e: Event) {
    e.Synced? && Sync(p, e.reply).1 == None
  }

  /** A restart, a reset, a 403 to a sync or to a heartbeat that goes out, a first enrollment that awaits approval. */
  predicate TurnsOff(p: Proxy, settings: Settings, e: Event) {
    match e
    case Restarted(_) => true
    case WasReset(_) => true
    case Synced(reply) => p.memId.Some? && reply.SyncAnswer? && reply.code == 403
    case HeartbeatSent(beat) => p.memId.Some? && p.forwarding && beat == HeartbeatAnswer(403)
    case Enrolled(x) =>
      && settings.enrollmentToken.Some? && EnrollResult(None, x.reply).Success?
      && !EnrollResult(None, x.reply).value.active
    case Reenrolled(_, _) => false
  }

  /** What one event does to the flag: on, off, or nothing. */
  lemma FlagStep(p: Proxy, settings: Settings, e: Event)
    ensures Apply(p, settings, e).forwarding <==> TurnsOn(p, e) || (p.forwarding && !TurnsOff(p, settings, e))
    ensures !(TurnsOn(p, e) && TurnsOff(p, settings, e))
  {
  }

  /** Whether the latest event of the run that concerns the flag turned it on; `start` if none does. */
  predicate LatestTurnsOn(p: Proxy, settings: Settings, events: seq<Event>, start: bool)
    decreases |events|
  {
    if events == [] then start
    else
      var e := events[0];
      LatestTurnsOn(Apply(p, settings, e), settings, events[1..],
                    if TurnsOn(p, e) then true else if TurnsOff(p, settings, e) then false else start)
  }

  /** Over every run the flag is what the latest event that concerns it made it. */
  lemma {:induction false} FlagFollowsLatest(p: Proxy, settings: Settings, events: seq<Event>)
    ensures Run(p, settings, events).forwarding <==> LatestTurnsOn(p, settings, events, p.forwarding)
    decreases |events|
  {
    if events == [] {
    } else {
      FlagStep(p, settings, events[0]);
      FlagFollowsLatest(Apply(p, settings, events[0]), settings, events[1..]);
    }
  }

  predicate ForwardsAsSomeone(p: Proxy) {
    p.forwarding ==> p.memId.Some?
  }

  /** Where every exchange is one step, the proxy never forwards without an id. */
  lemma {:induction false} ForwardingHasIdentity(p: Proxy, settings: Settings, events: seq<Event>)
    requires ForwardsAsSomeone(p)
    ensures ForwardsAsSomeone(Run(p, settings, events))
    decreases |events|
  {
    if events == [] {
    } else {
      ForwardingHasIdentity(Apply(p, settings, events[0]), settings, events[1..]);
    }
  }

  // ---------------------------------------------------------------- bootstrap

  /** Any bootstrap that ends well ends ready to forward, whatever was answered on the way. */
  lemma BootstrapOkMeansReady(p: Proxy, settings: Settings, i: Inputs)
    requires Bootstrap(p, settings, i).1 == None
    ensures var p' := Bootstrap(p, settings, i).0; p'.memId.Some? && p'.forwarding
  {
    SyncOkMeansReady(p, i.firstSync);
    SyncOkMeansReady(Enroll(p, settings, i.enroll).0, i.lastSync);
    SyncOkMeansReady(TryReenroll(p, settings, i).0, i.lastSync);
    SyncOkMeansReady(TryReenroll(Sync(p, i.firstSync).0, settings, i).0, i.lastSync);
  }

  lemma SyncOkMeansReady(p: Proxy, reply: SyncReply)
    ensures Sync(p, reply).1 == None ==> Sync(p, reply).0.memId.Some? && Sync(p, reply).0.forwarding
    ensures SameCredentials(p, Sync(p, reply).0) && Sync(p, reply).0.upstream == p.upstream
  {
  }

  // What the answers to enroll requests say, told from the answers alone.

  predicate Succeeded(code: nat) {
    200 <= code < 300
  }

  /** An acceptance of the new key for the id asked for. */
  predicate TakesNewKey(reply: EnrollReply, asked: ProxyId) {
    reply.EnrollAnswer? && Succeeded(reply.code) && reply.decoded.Some? && reply.decoded.value.proxyId == asked
  }

  /** 400, 401 or 404, or another failure whose text says that a generic token takes no id. */
  predicate TurnsTokenDown(reply: EnrollReply) {
    && reply.EnrollAnswer?
    && (reply.code == 400 || reply.code == 401 || reply.code == 404 || (!Succeeded(reply.code) && reply.genericToken))
  }

  /** The id a first enrollment is answered with, if it is accepted. */
  function GivenId(reply: EnrollReply): Option<ProxyId> {
    if reply.EnrollAnswer? && Succeeded(reply.code) && reply.decoded.Some?
    then Some(reply.decoded.value.proxyId)
    else None
  }

  /** A token is configured and the last sync did not list it as another proxy's. */
  predicate TokenUsable(p: Proxy, settings: Settings) {
    && settings.enrollmentToken.Some?
    && var token := settings.hmac(settings.enrollmentToken.value);
       token in p.proxyTokens ==> p.proxyTokens[token] == None || p.proxyTokens[token] == p.memId
  }

  /** A first enrollment: the keys stay, the id is the one given. */
  lemma EnrollExactly(p: Proxy, settings: Settings, x: Exchange)
    ensures var (p', outcome) := Enroll(p, settings, x);
            var given := if settings.enrollmentToken.Some? then GivenId(x.reply) else None;
            && p'.diskKey == p.diskKey && p'.memKey == p.memKey
            && p'.memId == (if given.Some? then given else p.memId)
            && p'.diskId == (if given.Some? then given else p.diskId)
            && (outcome == None <==> given.Some?)
            && p'.proxyTokens == p.proxyTokens && p'.agents == p.agents && p'.enrollmentTokens == p.enrollmentTokens
  {
  }

  lemma AsksExactly(p: Proxy, settings: Settings)
    ensures Asks(p, settings) <==> p.memId.Some? && TokenUsable(p, settings)
  {
  }

  /** Without a request nothing changes, not even what the upstream holds. */
  lemma UnaskedReenroll(p: Proxy, settings: Settings, i: Inputs)
    requires p.memId.None? || !TokenUsable(p, settings)
    ensures var (p', outcome) := TryReenroll(p, settings, i);
            && p' == p
            && (outcome == None <==> p.memId.None? || settings.enrollmentToken.None?)
            && (outcome.Some? ==> outcome == Some(BoundElsewhere))
  {
    AsksExactly(p, settings);
  }

  /**
   Main result: what a re-enrollment comes to, told from the answers.  If the token is turned down the identity is
   reset and a first enrollment follows; if the new key is accepted for this proxy it is kept; after every other
   answer all credentials are as before.
   */
  lemma TryReenrollExactly(p: Proxy, settings: Settings, i: Inputs)
    requires LocallyAgreed(p) && p.memId.Some? && TokenUsable(p, settings)
    ensures var (p', outcome) := TryReenroll(p, settings, i);
            var reply := i.reenroll.reply;
            && (TurnsTokenDown(reply) ==>
                  && p'.diskKey == Some(i.resetKey) && p'.memKey == i.resetKey
                  && p'.diskId == GivenId(i.enroll.reply) && p'.memId == GivenId(i.enroll.reply))
            && (TakesNewKey(reply, p.memId.value) ==>
                  && p'.diskKey == Some(i.newKey) && p'.memKey == i.newKey
                  && p'.diskId == p.diskId && p'.memId == p.memId)
            && (!TurnsTokenDown(reply) && !TakesNewKey(reply, p.memId.value) ==> SameCredentials(p, p'))
            && (outcome == None <==>
                  TakesNewKey(reply, p.memId.value) || (TurnsTokenDown(reply) && GivenId(i.enroll.reply).Some?))
  {
    AsksExactly(p, settings);
    var reenrolled := Reenroll(p, settings, i.newKey, i.reenroll).0;
    EnrollExactly(Reset(reenrolled, i.resetKey), settings, i.enroll);
  }

  /** The start asks for a re-enrollment: there is an id and a token, and it is forced or the first sync got a 401. */
  predicate Reenrolls(p: Proxy, settings: Settings, i: Inputs) {
    && p.memId.Some? && settings.enrollmentToken.Some?
    && (settings.forceReenroll || (i.firstSync.SyncAnswer? && i.firstSync.code == 401))
  }

  /** The start in the four cases, each with the exchanges it makes. */
  lemma BootstrapCases(p: Proxy, settings: Settings, i: Inputs)
    ensures var (p', outcome) := Bootstrap(p, settings, i);
            var (enrolled, enrollOutcome) := Enroll(p, settings, i.enroll);
            var (again, againOutcome) := TryReenroll(p, settings, i);
            && (p.memId.None? ==>
                  (p', outcome)
                  == if enrollOutcome == None then Sync(enrolled, i.lastSync) else (enrolled, enrollOutcome))
            && (Reenrolls(p, settings, i) ==>
                  (p', outcome) == if againOutcome == None then Sync(again, i.lastSync) else (again, againOutcome))
            && (p.memId.Some? && !Reenrolls(p, settings, i) ==>
                  (p', outcome) == if settings.forceReenroll then (p, Some(ForceNeedsToken)) else Sync(p, i.firstSync))
  {
    SyncCredentials(p, i.firstSync);
    assert Sync(p, i.firstSync).1 == Some(SyncFailed(401)) ==> Sync(p, i.firstSync).0 == p;
  }

  /** A sync, told from its answer. */
  lemma SyncCredentials(p: Proxy, reply: SyncReply)
    ensures SameCredentials(p, Sync(p, reply).0)
    ensures Sync(p, reply).1 == None <==>
              p.memId.Some? && reply.SyncAnswer? && Succeeded(reply.code) && reply.decoded.Some?
    ensures Sync(p, reply).1 == Some(SyncFailed(401)) <==> p.memId.Some? && reply.SyncAnswer? && reply.code == 401
  {
  }

  /**
   Main result: the credentials after a start, told from the answers, in every mode.  Without an id a first
   enrollment gives one or not; where a re-enrollment is asked it comes to what `TryReenrollExactly` says; and in
   every other case they are untouched.
   */
  lemma BootstrapCredentialsExactly(p: Proxy, settings: Settings, i: Inputs)
    requires LocallyAgreed(p)
    ensures var p' := Bootstrap(p, settings, i).0;
            var reply := i.reenroll.reply;
            var asked := Reenrolls(p, settings, i) && TokenUsable(p, settings);
            && (p.memId.None? ==>
                  && p'.diskKey == p.diskKey && p'.memKey == p.memKey && p'.diskId == p'.memId
                  && p'.memId == if settings.enrollmentToken.Some? then GivenId(i.enroll.reply) else None)
            && (asked && TurnsTokenDown(reply) ==>
                  && p'.diskKey == Some(i.resetKey) && p'.memKey == i.resetKey
                  && p'.diskId == GivenId(i.enroll.reply) && p'.memId == GivenId(i.enroll.reply))
            && (asked && TakesNewKey(reply, p.memId.value) ==>
                  && p'.diskKey == Some(i.newKey) && p'.memKey == i.newKey
                  && p'.diskId == p.diskId && p'.memId == p.memId)
            && (p.memId.Some? && !(asked && (TurnsTokenDown(reply) || TakesNewKey(reply, p.memId.value))) ==>
                  SameCredentials(p, p'))
  {
    BootstrapCases(p, settings, i);
    EnrollExactly(p, settings, i.enroll);
    SyncCredentials(Enroll(p, settings, i.enroll).0, i.lastSync);
    SyncCredentials(TryReenroll(p, settings, i).0, i.lastSync);
    SyncCredentials(p, i.firstSync);
    if p.memId.Some? {
      if TokenUsable(p, settings) {
        TryReenrollExactly(p, settings, i);
      } else {
        UnaskedReenroll(p, settings, i);
      }
    }
  }

  /**
   With a stored id and fresh keys: the credentials change exactly if a re-enrollment was asked and the answer took
   the new key or turned the token down.
   */
  lemma BootstrapTouchesCredentialsExactly(p: Proxy, settings: Settings, i: Inputs)
    requires LocallyAgreed(p) && p.memId.Some? && i.newKey != p.memKey && i.resetKey != p.memKey
    ensures !SameCredentials(p, Bootstrap(p, settings, i).0) <==>
              && Reenrolls(p, settings, i) && TokenUsable(p, settings)
              && (TurnsTokenDown(i.reenroll.reply) || TakesNewKey(i.reenroll.reply, p.memId.value))
  {
    BootstrapCredentialsExactly(p, settings, i);
  }

  predicate SyncsWell(reply: SyncReply) {
    reply.SyncAnswer? && Succeeded(reply.code) && reply.decoded.Some?
  }

  /** When a start ends well, told from the answers. */
  lemma BootstrapEndsWellExactly(p: Proxy, settings: Settings, i: Inputs)
    requires LocallyAgreed(p)
    ensures var reply := i.reenroll.reply;
            Bootstrap(p, settings, i).1 == None <==>
              if p.memId.None? then
                settings.enrollmentToken.Some? && GivenId(i.enroll.reply).Some? && SyncsWell(i.lastSync)
              else if Reenrolls(p, settings, i) then
                && TokenUsable(p, settings) && SyncsWell(i.lastSync)
                && (TakesNewKey(reply, p.memId.value) || (TurnsTokenDown(reply) && GivenId(i.enroll.reply).Some?))
              else !settings.forceReenroll && SyncsWell(i.firstSync)
  {
    BootstrapCases(p, settings, i);
    EnrollExactly(p, settings, i.enroll);
    SyncCredentials(Enroll(p, settings, i.enroll).0, i.lastSync);
    SyncCredentials(TryReenroll(p, settings, i).0, i.lastSync);
    SyncCredentials(p, i.firstSync);
    if p.memId.Some? {
      if TokenUsable(p, settings) {
        TryReenrollExactly(p, settings, i);
      } else {
        UnaskedReenroll(p, settings, i);
      }
    }
  }

  /**
   The upstream files the key exactly when its acceptance arrives, under the id it answers, which is the one asked
   for.
   */
  predicate Honest(x: Exchange, asked: Option<ProxyId>) {
    match EnrollResult(asked, x.reply)
    case Failure(_) => x.filed == None
    case Success(e) => x.filed == Some(e.proxyId) && (asked.Some? ==> asked.value == e.proxyId)
  }

  lemma TryReenrollAgreesLocally(p: Proxy, settings: Settings, i: Inputs)
    requires LocallyAgreed(p)
    ensures LocallyAgreed(TryReenroll(p, settings, i).0)
  {
    LocalAgreementStep(p, settings, Reenrolled(i.newKey, i.reenroll));
    var p' := Reenroll(p, settings, i.newKey, i.reenroll).0;
    LocalAgreementStep(p', settings, WasReset(i.resetKey));
    LocalAgreementStep(Reset(p', i.resetKey), settings, Enrolled(i.enroll));
  }

  lemma SyncAgreesLocally(p: Proxy, reply: SyncReply)
    requires LocallyAgreed(p)
    ensures LocallyAgreed(Sync(p, reply).0)
  {
  }

  /** Whatever the upstream answers, a bootstrap leaves memory and disk agreed. */
  lemma BootstrapAgreesLocally(p: Proxy, settings: Settings, i: Inputs)
    requires LocallyAgreed(p)
    ensures LocallyAgreed(Bootstrap(p, settings, i).0)
  {
    if p.memId.None? {
      LocalAgreementStep(p, settings, Enrolled(i.enroll));
      SyncAgreesLocally(Enroll(p, settings, i.enroll).0, i.lastSync);
    } else {
      TryReenrollAgreesLocally(p, settings, i);
      SyncAgreesLocally(p, i.firstSync);
      SyncAgreesLocally(TryReenroll(p, settings, i).0, i.lastSync);
      assert Sync(p, i.firstSync).1 == Some(SyncFailed(401)) ==> Sync(p, i.firstSync).0 == p;
    }
  }

  /** The exchanges a bootstrap actually makes are honest. */
  predicate HonestBootstrap(p: Proxy, settings: Settings, i: Inputs) {
    Honest(i.enroll, None) && (p.memId.Some? ==> Honest(i.reenroll, p.memId))
  }

  /** Honest exchanges leave disk, memory and upstream agreed after the whole bootstrap, however it ends. */
  lemma BootstrapAgrees(p: Proxy, settings: Settings, i: Inputs)
    requires Agreed(p) && HonestBootstrap(p, settings, i)
    ensures Agreed(Bootstrap(p, settings, i).0)
  {
    if p.memId.None? {
      AgreementStep(p, settings, Enrolled(i.enroll));
      SyncAgrees(Enroll(p, settings, i.enroll).0, i.lastSync);
    } else {
      TryReenrollAgrees(p, settings, i);
      SyncAgrees(p, i.firstSync);
      SyncAgrees(TryReenroll(p, settings, i).0, i.lastSync);
      assert Sync(p, i.firstSync).1 == Some(SyncFailed(401)) ==> Sync(p, i.firstSync).0 == p;
    }
  }

  lemma SyncAgrees(p: Proxy, reply: SyncReply)
    requires Agreed(p)
    ensures Agreed(Sync(p, reply).0)
  {
  }

  lemma TryReenrollAgrees(p: Proxy, settings: Settings, i: Inputs)
    requires Agreed(p) && HonestBootstrap(p, settings, i)
    ensures Agreed(TryReenroll(p, settings, i).0)
  {
    AgreementStep(p, settings, Reenrolled(i.newKey, i.reenroll));
    var p' := Reenroll(p, settings, i.newKey, i.reenroll).0;
    AgreementStep(p', settings, WasReset(i.resetKey));
    AgreementStep(Reset(p', i.resetKey), settings, Enrolled(i.enroll));
  }

  // ---------------------------------------------------------------- tables filled from lists

  /** The table holds exactly the listed keys, each with its last entry. */
  lemma {:induction false} FromListHoldsLast<K, V>(entries: seq<(K, V)>, k: K)
    ensures k in FromList(entries) <==> exists j :: 0 <= j < |entries| && entries[j].0 == k
    ensures k in FromList(entries) ==>
              exists j :: 0 <= j < |entries| && entries[j] == (k, FromList(entries)[k])
                       && forall l :: j < l < |entries| ==> entries[l].0 != k
  {
    if entries == [] {
    } else {
      var n := |entries| - 1;
      FromListHoldsLast(entries[..n], k);
      if entries[n].0 == k {
        assert entries[n] == (k, FromList(entries)[k]);
      } else if k in FromList(entries) {
        var j :| 0 <= j < n && entries[..n][j] == (k, FromList(entries[..n])[k])
              && forall l :: j < l < n ==> entries[..n][l].0 != k;
        assert entries[j] == (k, FromList(entries)[k]);
        forall l | j < l < |entries| ensures entries[l].0 != k {
          assert l < n ==> entries[l] == entries[..n][l];
        }
      }
    }
  }
}
