/**
 What several tasks do to the shared state at once: the sync task asks, hears an answer and
 fills the tables entry by entry; a heartbeat is out; the bootstrap task enrolls, re-enrolls
 and resets; agents send requests and enroll.  One sync and one heartbeat are out at a time.
 */
module TornSync {
  import opened Credentials
  import opened Wrappers
  import Validate
  import Nonces

  type AgentId = Validate.AgentId
  type CachedAgent = Validate.CachedAgent

  /** How far the sync in progress has come: an id was read and the request is out, or entries are left to insert. */
  datatype Stage =
    | Idle
    | Asked
    | FillingAgents(left: seq<(AgentId, CachedAgent)>, payload: Payload)
    | FillingEnrollment(left1: seq<(string, Validate.EnrollmentToken)>, payload: Payload)
    | FillingProxy(left2: seq<(string, Option<ProxyId>)>)
    | Filled

  /** `beating`: a heartbeat is out. */
  datatype Shared = Shared(p: Proxy, stage: Stage, beating: bool)

  datatype Event =
    | SyncAsked                             // a tick of the sync task: no request without an id
    | SyncReplied(reply: SyncReply)         // a 403, another failure, or a payload: then the first table is cleared
    | Insert                                // the next entry of the table being filled
    | ClearNext                             // the table is full: the next one is cleared, or the fill is over
    | SyncDone                              // forwarding on
    | HeartbeatAsked                        // a tick of the heartbeat task
    | HeartbeatReplied(beat: HeartbeatReply)
    | AgentEnrolled(id: AgentId, agent: CachedAgent)
    | TokenSpent(token: string)             // an enrollment went through: its token goes
    | Enrolled(x: Exchange)                 // the bootstrap task enrolls the proxy
    | Reenrolled(newKey: Key, x: Exchange)
    | WasReset(newKey: Key)

  predicate Enabled(s: Shared, e: Event) {
    match e
    case SyncAsked => s.stage.Idle?
    case SyncReplied(_) => s.stage.Asked?
    case Insert =>
      || (s.stage.FillingAgents? && s.stage.left != [])
      || (s.stage.FillingEnrollment? && s.stage.left1 != [])
      || (s.stage.FillingProxy? && s.stage.left2 != [])
    case ClearNext =>
      || (s.stage.FillingAgents? && s.stage.left == [])
      || (s.stage.FillingEnrollment? && s.stage.left1 == [])
      || (s.stage.FillingProxy? && s.stage.left2 == [])
    case SyncDone => s.stage.Filled?
    case HeartbeatAsked => !s.beating
    case HeartbeatReplied(_) => s.beating
    case _ => true
  }

  function Payloads(reply: SyncReply): Option<Payload> {
    if reply.SyncAnswer? && IsSuccess(reply.code) then reply.decoded else None
  }

  function AfterReply(s: Shared, reply: SyncReply): Shared {
    if reply.SyncAnswer? && reply.code == 403 then s.(p := s.p.(forwarding := false), stage := Idle)
    else
      match Payloads(reply)
      case None => s.(stage := Idle)
      case Some(payload) => s.(p := s.p.(agents := map[]), stage := FillingAgents(payload.agents, payload))
  }

  function InsertNext(s: Shared): Shared
    requires Enabled(s, Insert)
  {
    var p := s.p;
    match s.stage
    case FillingAgents(left, payload) =>
      s.(p := p.(agents := p.agents[left[0].0 := left[0].1]), stage := FillingAgents(left[1..], payload))
    case FillingEnrollment(left, payload) =>
      s.(p := p.(enrollmentTokens := p.enrollmentTokens[left[0].0 := left[0].1]),
         stage := FillingEnrollment(left[1..], payload))
    case FillingProxy(left) =>
      s.(p := p.(proxyTokens := p.proxyTokens[left[0].0 := left[0].1]), stage := FillingProxy(left[1..]))
  }

  function MoveOn(s: Shared): Shared
    requires Enabled(s, ClearNext)
  {
    match s.stage
    case FillingAgents(_, payload) =>
      s.(p := s.p.(enrollmentTokens := map[]), stage := FillingEnrollment(payload.enrollmentTokens, payload))
    case FillingEnrollment(_, payload) =>
      s.(p := s.p.(proxyTokens := map[]), stage := FillingProxy(payload.proxyTokens))
    case FillingProxy(_) => s.(stage := Filled)
  }

  function Next(settings: Settings, s: Shared, e: Event): Shared
    requires Enabled(s, e)
  {
    var p := s.p;
    match e
    case SyncAsked => if p.memId.None? then s else s.(stage := Asked)
    case SyncReplied(reply) => AfterReply(s, reply)
    case Insert => InsertNext(s)
    case ClearNext => MoveOn(s)
    case SyncDone => s.(p := p.(forwarding := true), stage := Idle)
    case HeartbeatAsked => s.(beating := p.memId.Some? && p.forwarding)
    case HeartbeatReplied(beat) =>
      s.(p := if beat == HeartbeatAnswer(403) then p.(forwarding := false) else p, beating := false)
    case AgentEnrolled(id, agent) => s.(p := p.(agents := p.agents[id := agent]))
    case TokenSpent(token) => s.(p := p.(enrollmentTokens := p.enrollmentTokens - {token}))
    case Enrolled(x) => s.(p := Enroll(p, settings, x).0)
    case Reenrolled(newKey, x) => s.(p := Reenroll(p, settings, newKey, x).0)
    case WasReset(newKey) => s.(p := Reset(p, newKey))
  }

  /** The state after a run, `None` if one of its events cannot happen where it stands. */
  function Run(settings: Settings, p0: Proxy, events: seq<Event>): Option<Shared> {
    if events == [] then Some(Shared(p0, Idle, false))
    else
      match Run(settings, p0, events[..|events| - 1])
      case None => None
      case Some(s) => if Enabled(s, events[|events| - 1]) then Some(Next(settings, s, events[|events| - 1])) else None
  }

  /** The process has just started: `Credentials.Start`. */
  predicate JustStarted(p0: Proxy) {
    p0 == Start(p0, p0.memKey)
  }

  lemma StartJustStarted(disk: Proxy, generated: Key)
    ensures JustStarted(Start(disk, generated))
  {
  }

  // ---------------------------------------------------------------- where records come from

  /** A well answered sync clears the agents. */
  predicate Clears(e: Event) {
    e.SyncReplied? && Payloads(e.reply).Some?
  }

  /** The agents of the payload whose clearing ran last in the run. */
  function LatestPayload(events: seq<Event>): seq<(AgentId, CachedAgent)> {
    if events == [] then []
    else
      var e := events[|events| - 1];
      if Clears(e) then Payloads(e.reply).value.agents else LatestPayload(events[..|events| - 1])
  }

  /** The enrollments after that clearing. */
  function EnrolledSince(events: seq<Event>): seq<(AgentId, CachedAgent)> {
    if events == [] then []
    else
      var e := events[|events| - 1];
      if Clears(e) then []
      else if e.AgentEnrolled? then EnrolledSince(events[..|events| - 1]) + [(e.id, e.agent)]
      else EnrolledSince(events[..|events| - 1])
  }

  predicate Listed(entries: seq<(AgentId, CachedAgent)>, id: AgentId, agent: CachedAgent) {
    exists j :: 0 <= j < |entries| && entries[j] == (id, agent)
  }

  predicate Names(entries: seq<(AgentId, CachedAgent)>, id: AgentId) {
    exists j :: 0 <= j < |entries| && entries[j].0 == id
  }

  /** What is still to be inserted is a tail of the payload. */
  predicate LeftIsTail(stage: Stage, payload: seq<(AgentId, CachedAgent)>) {
    stage.FillingAgents? ==> |stage.left| <= |payload| && stage.left == payload[|payload| - |stage.left|..]
  }

  /** Every record comes from one of the two. */
  ghost predicate Sourced(s: Shared, payload: seq<(AgentId, CachedAgent)>, since: seq<(AgentId, CachedAgent)>) {
    && (forall id <- s.p.agents :: Listed(payload, id, s.p.agents[id]) || Listed(since, id, s.p.agents[id]))
    && LeftIsTail(s.stage, payload)
  }

  lemma ListedLater(entries: seq<(AgentId, CachedAgent)>, entry: (AgentId, CachedAgent), id: AgentId,
                    agent: CachedAgent)
    requires Listed(entries, id, agent) || entry == (id, agent)
    ensures Listed(entries + [entry], id, agent)
  {
    var more := entries + [entry];
    if entry == (id, agent) {
      assert more[|entries|] == (id, agent);
    } else {
      var j :| 0 <= j < |entries| && entries[j] == (id, agent);
      assert more[j] == (id, agent);
    }
  }

  lemma EnrollKeepsSourced(settings: Settings, s: Shared, payload: seq<(AgentId, CachedAgent)>,
                           since: seq<(AgentId, CachedAgent)>, id: AgentId, agent: CachedAgent)
    requires Sourced(s, payload, since)
    ensures Sourced(Next(settings, s, AgentEnrolled(id, agent)), payload, since + [(id, agent)])
  {
    var agents := s.p.agents[id := agent];
    forall x | x in agents ensures Listed(payload, x, agents[x]) || Listed(since + [(id, agent)], x, agents[x]) {
      if x == id || Listed(since, x, s.p.agents[x]) {
        ListedLater(since, (id, agent), x, agents[x]);
      }
    }
  }

  lemma InsertKeepsSourced(s: Shared, payload: seq<(AgentId, CachedAgent)>, since: seq<(AgentId, CachedAgent)>)
    requires Sourced(s, payload, since) && Enabled(s, Insert)
    ensures Sourced(InsertNext(s), payload, since)
  {
    if s.stage.FillingAgents? {
      var k := |payload| - |s.stage.left|;
      assert payload[k] == s.stage.left[0];
      assert Listed(payload, payload[k].0, payload[k].1);
      assert s.stage.left[1..] == payload[k + 1..];
    }
  }

  /** The other events leave the agents and what is left of them alone. */
  lemma OthersKeepAgents(settings: Settings, s: Shared, e: Event)
    requires Enabled(s, e) && !Clears(e) && !e.Insert? && !e.AgentEnrolled?
    ensures Next(settings, s, e).p.agents == s.p.agents
    ensures Next(settings, s, e).stage.FillingAgents? ==> Next(settings, s, e).stage == s.stage
  {
  }

  lemma {:induction false} RunIsSourced(settings: Settings, p0: Proxy, events: seq<Event>)
    requires JustStarted(p0) && Run(settings, p0, events).Some?
    ensures Sourced(Run(settings, p0, events).value, LatestPayload(events), EnrolledSince(events))
    decreases |events|
  {
    if events == [] {
    } else {
      var before, e := events[..|events| - 1], events[|events| - 1];
      RunIsSourced(settings, p0, before);
      var s := Run(settings, p0, before).value;
      if Clears(e) {
        var agents := Payloads(e.reply).value.agents;
        assert agents[0..] == agents;
      } else if e.AgentEnrolled? {
        EnrollKeepsSourced(settings, s, LatestPayload(before), EnrolledSince(before), e.id, e.agent);
      } else if e.Insert? {
        InsertKeepsSourced(s, LatestPayload(before), EnrolledSince(before));
      } else {
        OthersKeepAgents(settings, s, e);
      }
    }
  }

  // ---------------------------------------------------------------- fail closed

  /** The request verifies under this record, and the record is not revoked. */
  predicate VerifiesUnder(crypto: Validate.Crypto, agent: CachedAgent, r: Validate.SignedRequest, now: Nonces.Instant) {
    var h := r.headers;
    && h.timestampMs.Some? && h.nonce.Some? && h.signature.Some?
    && agent.state != Validate.Revoked
    && var message := crypto.canonical(r.method_, r.path, r.body, h.timestampMs.value, h.nonce.value);
       Validate.SignatureVerifies(crypto, agent, message, h.signature.value, now)
  }

  /**
   Main result: at any point of any run, torn or not, an accepted request verifies under a record of the
   latest payload or of an enrollment since its clearing, and that record is not revoked.
   */
  lemma AcceptedUnderLatestRecords(crypto: Validate.Crypto, settings: Settings, p0: Proxy, events: seq<Event>,
                                   nonces: Nonces.Table, r: Validate.SignedRequest, now: Nonces.Instant)
    requires JustStarted(p0) && Run(settings, p0, events).Some?
    requires Validate.VerifySigned(crypto, Run(settings, p0, events).value.p.agents, nonces, r, now).1 == None
    ensures r.headers.agentId.Some?
    ensures var id := r.headers.agentId.value;
            exists agent :: VerifiesUnder(crypto, agent, r, now)
              && (Listed(LatestPayload(events), id, agent) || Listed(EnrolledSince(events), id, agent))
  {
    RunIsSourced(settings, p0, events);
    var agent := Run(settings, p0, events).value.p.agents[r.headers.agentId.value];
    assert VerifiesUnder(crypto, agent, r, now);
  }

  // ---------------------------------------------------------------- between two syncs nothing is missing

  /** Everyone listed so far is there. */
  ghost predicate Complete(s: Shared, payload: seq<(AgentId, CachedAgent)>, since: seq<(AgentId, CachedAgent)>) {
    var inserted := if s.stage.FillingAgents? then |payload| - |s.stage.left| else |payload|;
    && LeftIsTail(s.stage, payload)
    && (forall j :: 0 <= j < inserted ==> payload[j].0 in s.p.agents)
    && (forall j :: 0 <= j < |since| ==> since[j].0 in s.p.agents)
  }

  lemma {:induction false} RunIsComplete(settings: Settings, p0: Proxy, events: seq<Event>)
    requires Run(settings, p0, events).Some?
    ensures Complete(Run(settings, p0, events).value, LatestPayload(events), EnrolledSince(events))
    decreases |events|
  {
    if events == [] {
    } else {
      var before, e := events[..|events| - 1], events[|events| - 1];
      RunIsComplete(settings, p0, before);
      CompleteStep(settings, Run(settings, p0, before).value, LatestPayload(before), EnrolledSince(before), e);
    }
  }

  lemma CompleteStep(settings: Settings, s: Shared, payload: seq<(AgentId, CachedAgent)>,
                     since: seq<(AgentId, CachedAgent)>, e: Event)
    requires Complete(s, payload, since) && Enabled(s, e)
    ensures Complete(Next(settings, s, e), if Clears(e) then Payloads(e.reply).value.agents else payload,
                     if Clears(e) then [] else if e.AgentEnrolled? then since + [(e.id, e.agent)] else since)
  {
    if e.Insert? && s.stage.FillingAgents? {
      var k := |payload| - |s.stage.left|;
      assert payload[k] == s.stage.left[0] && s.stage.left[1..] == payload[k + 1..];
    } else if !Clears(e) && !e.Insert? && !e.AgentEnrolled? {
      OthersKeepAgents(settings, s, e);
    }
  }

  /** When no agent is left to insert, exactly the listed agents are known: the torn window only ever hides agents. */
  lemma KnownAgentsExactly(settings: Settings, p0: Proxy, events: seq<Event>, id: AgentId)
    requires JustStarted(p0) && Run(settings, p0, events).Some?
    ensures id in Run(settings, p0, events).value.p.agents ==>
              Names(LatestPayload(events), id) || Names(EnrolledSince(events), id)
    ensures !Run(settings, p0, events).value.stage.FillingAgents? ==>
              (id in Run(settings, p0, events).value.p.agents
               <==> Names(LatestPayload(events), id) || Names(EnrolledSince(events), id))
  {
    RunIsSourced(settings, p0, events);
    RunIsComplete(settings, p0, events);
    var agents := Run(settings, p0, events).value.p.agents;
    if id in agents {
      assert Listed(LatestPayload(events), id, agents[id]) || Listed(EnrolledSince(events), id, agents[id]);
    }
  }

  /** Once the clearing has run, an agent the payload leaves out is refused until it enrolls again. */
  lemma OmittedAgentsAreRefused(crypto: Validate.Crypto, settings: Settings, p0: Proxy, events: seq<Event>,
                                nonces: Nonces.Table, r: Validate.SignedRequest, now: Nonces.Instant)
    requires JustStarted(p0) && Run(settings, p0, events).Some? && r.headers.agentId.Some?
    requires !Names(LatestPayload(events), r.headers.agentId.value)
    requires !Names(EnrolledSince(events), r.headers.agentId.value)
    ensures Validate.VerifySigned(crypto, Run(settings, p0, events).value.p.agents, nonces, r, now)
         == (nonces, Some(Validate.Unauthorized))
  {
    KnownAgentsExactly(settings, p0, events, r.headers.agentId.value);
  }

  // ---------------------------------------------------------------- forwarding

  /** A 403 to a sync or a heartbeat, an accepted first enrollment that awaits approval, a reset. */
  predicate TurnsOff(settings: Settings, e: Event) {
    match e
    case SyncReplied(reply) => reply.SyncAnswer? && reply.code == 403
    case HeartbeatReplied(beat) => beat == HeartbeatAnswer(403)
    case Enrolled(x) => Enrolls(settings, e) && !EnrollResult(None, x.reply).value.active
    case WasReset(_) => true
    case _ => false
  }

  /** An accepted first enrollment: the proxy has an id. */
  predicate Enrolls(settings: Settings, e: Event) {
    e.Enrolled? && settings.enrollmentToken.Some? && EnrollResult(None, e.x.reply).Success?
  }

  lemma FlagStep(settings: Settings, s: Shared, e: Event)
    requires Enabled(s, e)
    ensures Next(settings, s, e).p.forwarding <==> e.SyncDone? || (s.p.forwarding && !TurnsOff(settings, e))
  {
  }

  /** The sync that ended at `j` ended well, and nothing has turned forwarding off since. */
  predicate DoneSince(settings: Settings, events: seq<Event>, j: nat) {
    j < |events| && events[j].SyncDone? && forall l :: j < l < |events| ==> !TurnsOff(settings, events[l])
  }

  /** A sync ended well, and nothing has turned forwarding off since. */
  ghost predicate SyncedLast(settings: Settings, events: seq<Event>) {
    exists j: nat :: DoneSince(settings, events, j)
  }

  /** Forwarding is on exactly when a successful sync is the latest answer that concerns it. */
  lemma {:induction false} ForwardingExactly(settings: Settings, p0: Proxy, events: seq<Event>)
    requires !p0.forwarding && Run(settings, p0, events).Some?
    ensures Run(settings, p0, events).value.p.forwarding <==> SyncedLast(settings, events)
    decreases |events|
  {
    if events == [] {
    } else {
      var n := |events| - 1;
      ForwardingExactly(settings, p0, events[..n]);
      FlagStep(settings, Run(settings, p0, events[..n]).value, events[n]);
      SyncedLastStep(settings, events);
    }
  }

  lemma SyncedLastStep(settings: Settings, events: seq<Event>)
    requires events != []
    ensures var n := |events| - 1;
            SyncedLast(settings, events) <==>
              events[n].SyncDone? || (SyncedLast(settings, events[..n]) && !TurnsOff(settings, events[n]))
  {
    var n := |events| - 1;
    var before := events[..n];
    if events[n].SyncDone? {
      assert DoneSince(settings, events, n);
    }
    if j: nat :| DoneSince(settings, events, j) {
      if j < n {
        assert before[j].SyncDone?;
        assert forall l :: j < l < n ==> before[l] == events[l];
        assert DoneSince(settings, before, j);
      }
    }
    if j: nat :| DoneSince(settings, before, j) {
      if !TurnsOff(settings, events[n]) {
        forall l | j < l < |events| ensures !TurnsOff(settings, events[l]) {
          assert l < n ==> events[l] == before[l];
        }
        assert DoneSince(settings, events, j);
      }
    }
  }

  // ---------------------------------------------------------------- forwarding without an identity

  /** The event at `j` is a reset, and no enrollment was accepted after it. */
  predicate LastlyReset(settings: Settings, events: seq<Event>, j: nat) {
    j < |events| && events[j].WasReset? && forall l :: j < l < |events| ==> !Enrolls(settings, events[l])
  }

  predicate NeverEnrolled(settings: Settings, events: seq<Event>) {
    forall l :: 0 <= l < |events| ==> !Enrolls(settings, events[l])
  }

  /** Only an accepted enrollment gives an id, only a reset takes it. */
  lemma IdentityStep(settings: Settings, s: Shared, e: Event)
    requires Enabled(s, e)
    ensures Next(settings, s, e).p.memId.None? <==> e.WasReset? || (s.p.memId.None? && !Enrolls(settings, e))
  {
  }

  /** Without an id and without a sync in progress none starts, and nothing turns forwarding on. */
  predicate Silent(s: Shared) {
    s.p.memId.None? && s.stage.Idle? && !s.p.forwarding
  }

  lemma SilentStep(settings: Settings, s: Shared, e: Event)
    requires Silent(s) && Enabled(s, e) && !Enrolls(settings, e)
    ensures Silent(Next(settings, s, e))
  {
    IdentityStep(settings, s, e);
    FlagStep(settings, s, e);
  }

  lemma {:induction false} SilentRun(settings: Settings, p0: Proxy, events: seq<Event>, j: nat)
    requires j <= |events| && Run(settings, p0, events).Some?
    requires Run(settings, p0, events[..j]).Some? ==> Silent(Run(settings, p0, events[..j]).value)
    requires forall l :: j <= l < |events| ==> !Enrolls(settings, events[l])
    ensures Silent(Run(settings, p0, events).value)
    decreases |events|
  {
    if j == |events| {
      assert events[..j] == events;
    } else {
      var n := |events| - 1;
      assert events[..n][..j] == events[..j];
      SilentRun(settings, p0, events[..n], j);
      SilentStep(settings, Run(settings, p0, events[..n]).value, events[n]);
    }
  }

  lemma {:induction false} EarlierStates(settings: Settings, p0: Proxy, events: seq<Event>, j: nat)
    requires j <= |events| && Run(settings, p0, events).Some?
    ensures Run(settings, p0, events[..j]).Some?
    ensures j < |events| ==> Enabled(Run(settings, p0, events[..j]).value, events[j])
    decreases |events|
  {
    if j == |events| {
      assert events[..j] == events;
    } else {
      var n := |events| - 1;
      assert j < n ==> events[..n][..j] == events[..j];
      if j < n {
        EarlierStates(settings, p0, events[..n], j);
      }
    }
  }

  /** The proxy has no id exactly if it was lastly reset, or never had one. */
  lemma {:induction false} NoIdentityExactly(settings: Settings, p0: Proxy, events: seq<Event>)
    requires Run(settings, p0, events).Some?
    ensures Run(settings, p0, events).value.p.memId.None? <==>
              (exists j: nat :: LastlyReset(settings, events, j)) || (p0.memId.None? && NeverEnrolled(settings, events))
    decreases |events|
  {
    if events == [] {
    } else {
      var n := |events| - 1;
      NoIdentityExactly(settings, p0, events[..n]);
      IdentityStep(settings, Run(settings, p0, events[..n]).value, events[n]);
      LastlyResetStep(settings, events);
      assert events == events[..n] + [events[n]];
      assert NeverEnrolled(settings, events) <==> NeverEnrolled(settings, events[..n]) && !Enrolls(settings, events[n]);
    }
  }

  lemma LastlyResetStep(settings: Settings, events: seq<Event>)
    requires events != []
    ensures var n := |events| - 1;
            (exists j: nat :: LastlyReset(settings, events, j)) <==>
              || events[n].WasReset?
              || ((exists j: nat :: LastlyReset(settings, events[..n], j)) && !Enrolls(settings, events[n]))
  {
    var n := |events| - 1;
    var before := events[..n];
    if events[n].WasReset? {
      assert LastlyReset(settings, events, n);
    }
    if j: nat :| LastlyReset(settings, events, j) {
      if j < n {
        assert before[j].WasReset?;
        assert forall l :: j < l < n ==> before[l] == events[l];
        assert LastlyReset(settings, before, j);
      }
    }
    if j: nat :| LastlyReset(settings, before, j) {
      if !Enrolls(settings, events[n]) {
        forall l | j < l < |events| ensures !Enrolls(settings, events[l]) {
          assert l < n ==> events[l] == before[l];
        }
        assert LastlyReset(settings, events, j);
      }
    }
  }

  /** A reset that finds no sync in progress is followed by silence until an enrollment is accepted. */
  lemma IdleResetSilences(settings: Settings, p0: Proxy, events: seq<Event>, j: nat)
    requires Run(settings, p0, events).Some? && LastlyReset(settings, events, j)
    requires Run(settings, p0, events[..j]).Some? ==> Run(settings, p0, events[..j]).value.stage.Idle?
    ensures Silent(Run(settings, p0, events).value)
  {
    EarlierStates(settings, p0, events, j);
    EarlierStates(settings, p0, events, j + 1);
    assert events[..j + 1][..j] == events[..j];
    SilentRun(settings, p0, events, j + 1);
  }

  /** A reset in a run that finds a sync in progress. */
  predicate FindsSync(settings: Settings, p0: Proxy, events: seq<Event>, j: nat)
    requires j <= |events|
  {
    Run(settings, p0, events[..j]).Some? && !Run(settings, p0, events[..j]).value.stage.Idle?
  }

  /**
   Main result: exactly when a run leaves the proxy forwarding without an id.  It was lastly reset while a sync
   was in progress, and that sync ended well with nothing to turn forwarding off since.
   */
  lemma ForwardingWithoutIdentityExactly(settings: Settings, p0: Proxy, events: seq<Event>)
    requires JustStarted(p0) && Run(settings, p0, events).Some?
    ensures var p := Run(settings, p0, events).value.p;
            p.forwarding && p.memId.None? <==>
              SyncedLast(settings, events)
              && exists j: nat :: LastlyReset(settings, events, j) && FindsSync(settings, p0, events, j)
  {
    ForwardingExactly(settings, p0, events);
    NoIdentityExactly(settings, p0, events);
    var p := Run(settings, p0, events).value.p;
    if p.forwarding && p.memId.None? {
      if p0.memId.None? && NeverEnrolled(settings, events) {
        SilentRun(settings, p0, events, 0);
      }
      var j: nat :| LastlyReset(settings, events, j);
      EarlierStates(settings, p0, events, j);
      if Run(settings, p0, events[..j]).value.stage.Idle? {
        IdleResetSilences(settings, p0, events, j);
      }
      assert FindsSync(settings, p0, events, j);
    }
  }

  /** If every reset finds no sync in progress, the proxy never forwards without an id. */
  lemma QuietResetsKeepIdentity(settings: Settings, p0: Proxy, events: seq<Event>)
    requires JustStarted(p0) && Run(settings, p0, events).Some?
    requires forall j :: 0 <= j < |events| && events[j].WasReset? ==> !FindsSync(settings, p0, events, j)
    ensures ForwardsAsSomeone(Run(settings, p0, events).value.p)
  {
    ForwardingWithoutIdentityExactly(settings, p0, events);
  }

  // ---------------------------------------------------------------- a sync nobody disturbs

  predicate OwnStep(e: Event) {
    e.SyncAsked? || e.SyncReplied? || e.Insert? || e.ClearNext? || e.SyncDone?
  }

  /** `longer` continues `events` with steps of the sync only, and ends in `s`. */
  ghost predicate Continues(settings: Settings, p0: Proxy, events: seq<Event>, longer: seq<Event>, s: Shared) {
    && events <= longer && Run(settings, p0, longer) == Some(s)
    && (forall l :: |events| <= l < |longer| ==> OwnStep(longer[l]))
  }

  lemma Step(settings: Settings, p0: Proxy, start: seq<Event>, events: seq<Event>, s: Shared, e: Event)
      returns (longer: seq<Event>, s': Shared)
    requires Continues(settings, p0, start, events, s) && Enabled(s, e) && OwnStep(e)
    ensures s' == Next(settings, s, e) && Continues(settings, p0, start, longer, s')
  {
    longer, s' := events + [e], Next(settings, s, e);
    assert longer[..|longer| - 1] == events;
  }

  /** A table with the remaining entries put in. */
  function FillUp<K, V>(t: map<K, V>, left: seq<(K, V)>): map<K, V>
    decreases |left|
  {
    if left == [] then t else FillUp(t[left[0].0 := left[0].1], left[1..])
  }

  lemma {:induction false} FillAgents(settings: Settings, p0: Proxy, start: seq<Event>, events: seq<Event>, s: Shared)
      returns (longer: seq<Event>, s': Shared)
    requires Continues(settings, p0, start, events, s) && s.stage.FillingAgents?
    ensures Continues(settings, p0, start, longer, s')
    ensures s' == s.(p := s.p.(agents := FillUp(s.p.agents, s.stage.left)), stage := FillingAgents([], s.stage.payload))
    decreases |s.stage.left|
  {
    if s.stage.left == [] {
      longer, s' := events, s;
    } else {
      longer, s' := Step(settings, p0, start, events, s, Insert);
      longer, s' := FillAgents(settings, p0, start, longer, s');
    }
  }

  lemma {:induction false} FillEnrollment(settings: Settings, p0: Proxy, start: seq<Event>, events: seq<Event>,
                                          s: Shared)
      returns (longer: seq<Event>, s': Shared)
    requires Continues(settings, p0, start, events, s) && s.stage.FillingEnrollment?
    ensures Continues(settings, p0, start, longer, s')
    ensures s' == s.(p := s.p.(enrollmentTokens := FillUp(s.p.enrollmentTokens, s.stage.left1)),
                     stage := FillingEnrollment([], s.stage.payload))
    decreases |s.stage.left1|
  {
    if s.stage.left1 == [] {
      longer, s' := events, s;
    } else {
      longer, s' := Step(settings, p0, start, events, s, Insert);
      longer, s' := FillEnrollment(settings, p0, start, longer, s');
    }
  }

  lemma {:induction false} FillProxy(settings: Settings, p0: Proxy, start: seq<Event>, events: seq<Event>, s: Shared)
      returns (longer: seq<Event>, s': Shared)
    requires Continues(settings, p0, start, events, s) && s.stage.FillingProxy?
    ensures Continues(settings, p0, start, longer, s')
    ensures s' == s.(p := s.p.(proxyTokens := FillUp(s.p.proxyTokens, s.stage.left2)), stage := FillingProxy([]))
    decreases |s.stage.left2|
  {
    if s.stage.left2 == [] {
      longer, s' := events, s;
    } else {
      longer, s' := Step(settings, p0, start, events, s, Insert);
      longer, s' := FillProxy(settings, p0, start, longer, s');
    }
  }

  lemma {:induction false} FilledIsFromList<K, V>(t: map<K, V>, done: seq<(K, V)>, left: seq<(K, V)>)
    requires t == FromList(done)
    ensures FillUp(t, left) == FromList(done + left)
    decreases |left|
  {
    if left == [] {
      assert done + left == done;
    } else {
      assert (done + [left[0]])[..|done|] == done;
      FilledIsFromList(t[left[0].0 := left[0].1], done + [left[0]], left[1..]);
      assert done + [left[0]] + left[1..] == done + left;
    }
  }

  /** What the three fills from a stage on make of the tables. */
  function Completed(s: Shared): Proxy {
    var p := s.p;
    match s.stage
    case FillingAgents(left, payload) =>
      p.(agents := FillUp(p.agents, left), enrollmentTokens := FillUp(map[], payload.enrollmentTokens),
         proxyTokens := FillUp(map[], payload.proxyTokens), forwarding := true)
    case FillingEnrollment(left, payload) =>
      p.(enrollmentTokens := FillUp(p.enrollmentTokens, left), proxyTokens := FillUp(map[], payload.proxyTokens),
         forwarding := true)
    case FillingProxy(left) => p.(proxyTokens := FillUp(p.proxyTokens, left), forwarding := true)
    case Filled => p.(forwarding := true)
    case _ => p
  }

  /** A fill left to itself ends, from wherever it stands, with forwarding on. */
  lemma FinishFill(settings: Settings, p0: Proxy, start: seq<Event>, events: seq<Event>, s: Shared)
      returns (longer: seq<Event>, s': Shared)
    requires Continues(settings, p0, start, events, s) && !s.stage.Idle? && !s.stage.Asked?
    ensures Continues(settings, p0, start, longer, s') && s' == s.(p := Completed(s), stage := Idle)
  {
    longer, s' := events, s;
    if s'.stage.FillingAgents? {
      longer, s' := FillAgents(settings, p0, start, longer, s');
      longer, s' := Step(settings, p0, start, longer, s', ClearNext);
    }
    if s'.stage.FillingEnrollment? {
      longer, s' := FillEnrollment(settings, p0, start, longer, s');
      longer, s' := Step(settings, p0, start, longer, s', ClearNext);
    }
    if s'.stage.FillingProxy? {
      longer, s' := FillProxy(settings, p0, start, longer, s');
      longer, s' := Step(settings, p0, start, longer, s', ClearNext);
    }
    assert s'.stage.Filled?;
    longer, s' := Step(settings, p0, start, longer, s', SyncDone);
  }

  /**
   Left to itself, from any point between two syncs and for every answer, a sync is the one step of
   `Credentials.Sync`.
   */
  lemma UninterruptedSyncIsAtomic(settings: Settings, p0: Proxy, events: seq<Event>, reply: SyncReply)
      returns (longer: seq<Event>)
    requires Run(settings, p0, events).Some? && Run(settings, p0, events).value.stage.Idle?
    ensures Run(settings, p0, longer).Some? && Continues(settings, p0, events, longer, Run(settings, p0, longer).value)
    ensures var s := Run(settings, p0, events).value;
            Run(settings, p0, longer).value == s.(p := Sync(s.p, reply).0)
  {
    var s := Run(settings, p0, events).value;
    var s';
    longer, s' := Step(settings, p0, events, events, s, SyncAsked);
    if s'.stage.Asked? {
      longer, s' := Step(settings, p0, events, longer, s', SyncReplied(reply));
      if Payloads(reply).Some? {
        var payload := Payloads(reply).value;
        longer, s' := FinishFill(settings, p0, events, longer, s');
        FilledIsFromList(map[], [], payload.agents);
        FilledIsFromList(map[], [], payload.enrollmentTokens);
        FilledIsFromList(map[], [], payload.proxyTokens);
        assert [] + payload.agents == payload.agents && [] + payload.enrollmentTokens == payload.enrollmentTokens;
        assert [] + payload.proxyTokens == payload.proxyTokens;
      }
    }
  }

  /** A heartbeat that nothing comes between is the one step of `Credentials.Heartbeat`. */
  lemma UninterruptedHeartbeatIsAtomic(settings: Settings, s: Shared, beat: HeartbeatReply)
    requires !s.beating
    ensures var asked := Next(settings, s, HeartbeatAsked);
            (if asked.beating then Next(settings, asked, HeartbeatReplied(beat)) else asked)
            == s.(p := Heartbeat(s.p, beat).0)
  {
  }

  /** A reset that finds a sync in progress can end in forwarding without an id: the sync need only end well. */
  lemma BusyResetForwardsWithoutIdentity(settings: Settings, p0: Proxy, events: seq<Event>, newKey: Key)
      returns (longer: seq<Event>)
    requires Run(settings, p0, events).Some? && !Run(settings, p0, events).value.stage.Idle?
    ensures events + [Event.WasReset(newKey)] <= longer && Run(settings, p0, longer).Some?
    ensures forall l :: |events| < l < |longer| ==> OwnStep(longer[l])
    ensures var p := Run(settings, p0, longer).value.p; p.forwarding && p.memId.None?
  {
    var start := events + [Event.WasReset(newKey)];
    assert start[..|start| - 1] == events;
    var s' := Next(settings, Run(settings, p0, events).value, Event.WasReset(newKey));
    assert Run(settings, p0, start) == Some(s');
    longer := start;
    if s'.stage.Asked? {
      longer, s' := Step(settings, p0, start, longer, s', SyncReplied(SyncAnswer(200, Some(Payload([], [], [], [])))));
    }
    longer, s' := FinishFill(settings, p0, start, longer, s');
  }
}
