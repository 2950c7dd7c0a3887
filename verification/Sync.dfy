/**
 The exchanges of `sync.rs` on the shared state, in the order of its statements.  What the
 upstream answers, and the keys drawn, are parameters.
 */
module Sync {
  import opened Credentials
  import opened State
  import opened Wrappers
  import RateLimit
  import Validate

  method PostProxyEnroll(state: AppState, asked: Option<ProxyId>, key: Key, x: Exchange)
      returns (result: Result<Enrollment, Error>)
    modifies state
    ensures (state.View(), result) == PostEnroll(old(state.View()), asked, key, x)
  {
    state.upstream := File(state.upstream, x.filed, key);
    if x.reply.NoEnrollReply? {
      return Failure(NoAnswer);
    }
    if x.reply.code == 401 && asked.Some? {
      return Failure(TokenRejected);
    }
    if !IsSuccess(x.reply.code) {
      return Failure(EnrollFailed(x.reply.code, x.reply.genericToken));
    }
    if x.reply.decoded.None? {
      return Failure(BadAnswer);
    }
    var enrolled := x.reply.decoded.value;
    if asked.None? {
      state.SetProxyId(enrolled.proxyId);
      if !enrolled.active {
        state.SetForwarding(false);
      }
    }
    result := Success(enrolled);
  }

  method EnrollIfNeeded(state: AppState, x: Exchange) returns (outcome: Outcome)
    modifies state
    ensures (state.View(), outcome) == Enroll(old(state.View()), state.settings, x)
  {
    if state.settings.enrollmentToken.None? {
      return Some(TokenRequired);
    }
    var result := PostProxyEnroll(state, None, state.keypair, x);
    outcome := if result.Failure? then Some(result.error) else None;
  }

  method ReenrollIfNeeded(state: AppState, newKey: Key, x: Exchange) returns (outcome: Outcome)
    modifies state
    ensures (state.View(), outcome) == Reenroll(old(state.View()), state.settings, newKey, x)
  {
    if state.settings.enrollmentToken.None? {
      return None;
    }
    if state.proxyId.None? {
      return None;
    }
    var id := state.proxyId.value;
    var token := state.settings.hmac(state.settings.enrollmentToken.value);
    if token in state.proxyEnrollmentTokens {
      var bound := state.proxyEnrollmentTokens[token];
      if bound.Some? && bound.value != id {
        return Some(BoundElsewhere);
      }
    }
    var result := PostProxyEnroll(state, Some(id), newKey, x);
    if result.Failure? {
      return Some(result.error);
    }
    if result.value.proxyId != id {
      return Some(DifferentId);
    }
    state.diskKey := Some(newKey);
    state.ReplaceKeypair(newKey);
    outcome := None;
  }

  method TryReenroll(state: AppState, i: Inputs) returns (outcome: Outcome)
    modifies state
    ensures (state.View(), outcome) == Credentials.TryReenroll(old(state.View()), state.settings, i)
  {
    outcome := ReenrollIfNeeded(state, i.newKey, i.reenroll);
    if outcome.Some? && ShouldReset(outcome.value) {
      state.ClearProxyIdentity(i.resetKey);
      outcome := EnrollIfNeeded(state, i.enroll);
    }
  }

  // ---------------------------------------------------------------- syncing

  function ApplyUnbans(t: RateLimit.Table, unbans: seq<(string, RateLimit.Class)>): RateLimit.Table {
    if unbans == [] then t
    else RateLimit.Unban(ApplyUnbans(t, unbans[..|unbans| - 1]), unbans[|unbans| - 1].0, unbans[|unbans| - 1].1)
  }

  predicate Unbanned(unbans: seq<(string, RateLimit.Class)>, ip: string, c: RateLimit.Class) {
    exists j :: 0 <= j < |unbans| && unbans[j] == (ip, c)
  }

  /** The unbans clear exactly the counters they name: no window, other counter or other address changes. */
  lemma {:induction false} UnbansClearExactly(t: RateLimit.Table, unbans: seq<(string, RateLimit.Class)>, ip: string,
                                              c: RateLimit.Class)
    ensures ApplyUnbans(t, unbans).Keys == t.Keys
    ensures ip in t ==> ApplyUnbans(t, unbans)[ip].windowStart == t[ip].windowStart
    ensures ip in t && Unbanned(unbans, ip, c) ==> ApplyUnbans(t, unbans)[ip].Count(c) == 0
    ensures ip in t && !Unbanned(unbans, ip, c) ==> ApplyUnbans(t, unbans)[ip].Count(c) == t[ip].Count(c)
  {
    if unbans == [] {
    } else {
      var n := |unbans| - 1;
      UnbansClearExactly(t, unbans[..n], ip, c);
      if Unbanned(unbans[..n], ip, c) {
        var j :| 0 <= j < n && unbans[..n][j] == (ip, c);
        assert unbans[j] == (ip, c);
      } else if unbans[n] != (ip, c) {
        forall j | 0 <= j < |unbans| ensures unbans[j] != (ip, c) {
          assert j < n ==> unbans[j] == unbans[..n][j];
        }
      }
    }
  }

  /** The payload a sync reply gets applied, if it does. */
  function Applied(p: Proxy, reply: SyncReply): Option<Payload> {
    if p.memId.Some? && reply.SyncAnswer? && IsSuccess(reply.code) then reply.decoded else None
  }

  method RunOnce(state: AppState, reply: SyncReply) returns (outcome: Outcome)
    modifies state, state.rateLimits
    ensures (state.View(), outcome) == Credentials.Sync(old(state.View()), reply)
    ensures state.rateLimits.rateLimits
         == match Applied(old(state.View()), reply)
            case None => old(state.rateLimits.rateLimits)
            case Some(payload) => ApplyUnbans(old(state.rateLimits.rateLimits), payload.unbans)
  {
    if state.proxyId.None? {
      return Some(NotEnrolled);
    }
    if reply.NoSyncReply? {
      return Some(NoAnswer);
    }
    if reply.code == 403 {
      state.SetForwarding(false);
      return Some(SyncForbidden);
    }
    if !IsSuccess(reply.code) {
      return Some(SyncFailed(reply.code));
    }
    if reply.decoded.None? {
      return Some(BadAnswer);
    }
    var payload := reply.decoded.value;
    ReplaceTables(state, payload);
    var n := 0;
    while n < |payload.unbans|
      invariant n <= |payload.unbans|
      invariant state.rateLimits.rateLimits == ApplyUnbans(old(state.rateLimits.rateLimits), payload.unbans[..n])
      invariant state.View() == ApplyPayload(old(state.View()), payload).(forwarding := old(state.forwarding))
    {
      assert payload.unbans[..n + 1][..n] == payload.unbans[..n];
      state.rateLimits.ClearRateLimit(payload.unbans[n].0, payload.unbans[n].1);
      n := n + 1;
    }
    assert payload.unbans[..n] == payload.unbans;
    state.SetForwarding(true);
    outcome := None;
  }

  /** The three loops that clear a table and fill it again. */
  method ReplaceTables(state: AppState, payload: Payload)
    modifies state
    ensures state.View() == ApplyPayload(old(state.View()), payload).(forwarding := old(state.forwarding))
  {
    state.agents := map[];
    for n := 0 to |payload.agents|
      invariant state.View() == old(state.View()).(agents := FromList(payload.agents[..n]))
    {
      assert payload.agents[..n + 1][..n] == payload.agents[..n];
      state.agents := state.agents[payload.agents[n].0 := payload.agents[n].1];
    }
    assert payload.agents[..|payload.agents|] == payload.agents;
    ReplaceTokens(state, payload);
  }

  method ReplaceTokens(state: AppState, payload: Payload)
    modifies state
    ensures state.View() == old(state.View()).(enrollmentTokens := FromList(payload.enrollmentTokens),
                                               proxyTokens := FromList(payload.proxyTokens))
  {
    state.enrollmentTokens := map[];
    for n := 0 to |payload.enrollmentTokens|
      invariant state.View() == old(state.View()).(enrollmentTokens := FromList(payload.enrollmentTokens[..n]))
    {
      assert payload.enrollmentTokens[..n + 1][..n] == payload.enrollmentTokens[..n];
      state.enrollmentTokens := state.enrollmentTokens[payload.enrollmentTokens[n].0 := payload.enrollmentTokens[n].1];
    }
    assert payload.enrollmentTokens[..|payload.enrollmentTokens|] == payload.enrollmentTokens;
    state.proxyEnrollmentTokens := map[];
    for n := 0 to |payload.proxyTokens|
      invariant state.View() == old(state.View()).(enrollmentTokens := FromList(payload.enrollmentTokens),
                                                   proxyTokens := FromList(payload.proxyTokens[..n]))
    {
      assert payload.proxyTokens[..n + 1][..n] == payload.proxyTokens[..n];
      state.proxyEnrollmentTokens := state.proxyEnrollmentTokens[payload.proxyTokens[n].0 := payload.proxyTokens[n].1];
    }
    assert payload.proxyTokens[..|payload.proxyTokens|] == payload.proxyTokens;
  }

  /** `sent` is the report in the request body, `None` if no heartbeat goes out. */
  method HeartbeatOnce(state: AppState, now: RateLimit.Instant, beat: HeartbeatReply)
      returns (outcome: Outcome, sent: Option<seq<RateLimit.Report>>)
    modifies state
    ensures (state.View(), outcome) == Heartbeat(old(state.View()), beat)
    ensures sent.Some? <==> old(state.proxyId).Some? && old(state.forwarding)
    ensures sent.Some? ==> forall ip, c ::
              RateLimit.Limited(state.rateLimits.rateLimits, ip, c, now)
              <==> exists r :: r in sent.value && r.ip == ip && r.kind == c
    ensures sent.Some? ==> forall r <- sent.value ::
              && r.ip in state.rateLimits.rateLimits
              && r == RateLimit.ReportFor(state.rateLimits.rateLimits, r.ip, r.kind, now)
  {
    if state.proxyId.None? || !state.forwarding {
      return None, None;
    }
    var report := state.rateLimits.ListLimitedRateLimits(now);
    forall ip, c | RateLimit.Limited(state.rateLimits.rateLimits, ip, c, now)
      ensures exists r :: r in report && r.ip == ip && r.kind == c
    {
      assert RateLimit.ReportFor(state.rateLimits.rateLimits, ip, c, now) in report;
    }
    sent := Some(report);
    if beat.NoHeartbeatReply? {
      return Some(NoAnswer), sent;
    }
    if beat.code == 403 {
      state.SetForwarding(false);
      return Some(HeartbeatForbidden), sent;
    }
    if !IsSuccess(beat.code) {
      return Some(HeartbeatFailed(beat.code)), sent;
    }
    outcome := None;
  }

  /** The answer of the sync that decides a bootstrap, where it gets that far. */
  function FinalReply(p: Proxy, settings: Settings, i: Inputs): SyncReply {
    var rejected := settings.enrollmentToken.Some? && Credentials.Sync(p, i.firstSync).1 == Some(SyncFailed(401));
    if p.memId.Some? && !settings.forceReenroll && !rejected then i.firstSync else i.lastSync
  }

  /** The limiter's table after a bootstrap: only a good end applies unbans, those of the deciding sync. */
  function LimitsAfter(t: RateLimit.Table, p: Proxy, settings: Settings, i: Inputs): RateLimit.Table {
    match FinalReply(p, settings, i)
    case SyncAnswer(_, Some(payload)) =>
      if Credentials.Bootstrap(p, settings, i).1 == None then ApplyUnbans(t, payload.unbans) else t
    case _ => t
  }

  method Bootstrap(state: AppState, i: Inputs) returns (outcome: Outcome)
    modifies state, state.rateLimits
    ensures (state.View(), outcome) == Credentials.Bootstrap(old(state.View()), state.settings, i)
    ensures state.rateLimits.rateLimits
         == LimitsAfter(old(state.rateLimits.rateLimits), old(state.View()), state.settings, i)
  {
    if state.proxyId.None? {
      outcome := EnrollIfNeeded(state, i.enroll);
      if outcome.Some? { return; }
      outcome := RunOnce(state, i.lastSync);
      return;
    }
    var hasToken := state.settings.enrollmentToken.Some?;
    if state.settings.forceReenroll {
      if !hasToken {
        return Some(ForceNeedsToken);
      }
      outcome := TryReenroll(state, i);
      if outcome.Some? { return; }
      outcome := RunOnce(state, i.lastSync);
      return;
    }
    outcome := RunOnce(state, i.firstSync);
    if hasToken && outcome == Some(SyncFailed(401)) {
      outcome := TryReenroll(state, i);
      if outcome.Some? { return; }
      outcome := RunOnce(state, i.lastSync);
    }
  }
}
