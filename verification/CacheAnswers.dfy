/**
 How a leader's request ends, for every answer of the upstream and every interleaving after
 it.  A 304 is the subject of `CacheStale.RevalidatedAnswerExact`.
 */
module CacheAnswers {
  import opened ArtifactStore
  import opened CacheProtocol
  import opened Wrappers

  /** The body broke off, or it is small enough to keep and its tag is not its digest. */
  predicate Spoils(cfg: Config, e: Event, r: ReqId, etag: Option<Digest>, body: Bytes) {
    && e.Finish? && e.r == r
    && (Broken in e.chunks || (|body| <= cfg.maxBytes / 4 && etag.Some? && etag != Some(cfg.sha256(body))))
  }

  predicate Spoiled(cfg: Config, events: seq<Event>, r: ReqId, etag: Option<Digest>, body: Bytes) {
    exists j :: 0 <= j < |events| && Spoils(cfg, events[j], r, etag, body)
  }

  /** Where a fill's last step leaves the request, told from the chunks: failed, or answered with the whole body. */
  lemma FinishExactly(cfg: Config, s: State, r: ReqId, chunks: seq<Chunk>, now: Instant)
    requires Next(cfg, s, Finish(r, chunks, now)).Some?
    ensures var q := s.requests[r];
            var p, s' := q.phase, Next(cfg, s, Finish(r, chunks, now)).value;
            var spoiled := Spoils(cfg, Finish(r, chunks, now), r, p.etag, p.body);
            var outcome := if spoiled then Failed else Served(p.body, p.answered);
            && s'.requests == s.requests[r := q.(phase := Releasing(outcome))]
            && (spoiled || |p.body| > cfg.maxBytes / 4 || p.etag == None ==> s'.store == s.store)
            && (!spoiled && |p.body| <= cfg.maxBytes / 4 && p.etag.Some? ==>
                  && cfg.sha256(p.body) in s'.store.blobs && Known(s'.store, q.path) != []
                  && Known(s'.store, q.path)[0] == cfg.sha256(p.body) && s'.store.lastUsed[cfg.sha256(p.body)] == now)
  {
  }

  /** A request whose outcome is settled keeps it. */
  predicate Settled(q: Request, outcome: Outcome) {
    q.phase == Releasing(outcome) || (q.phase.Done? && q.phase.outcome == outcome)
  }

  lemma SettledStep(cfg: Config, s: State, e: Event, r: ReqId, outcome: Outcome)
    requires r in s.requests && Settled(s.requests[r], outcome) && Next(cfg, s, e).Some?
    ensures var s' := Next(cfg, s, e).value; r in s'.requests && Settled(s'.requests[r], outcome)
    ensures !(e.Finish? && e.r == r)
  {
  }

  lemma {:induction false} SettledRun(cfg: Config, s: State, events: seq<Event>, r: ReqId, outcome: Outcome)
    requires r in s.requests && Settled(s.requests[r], outcome) && Run(cfg, s, events).Some?
    ensures var s' := Run(cfg, s, events).value; r in s'.requests && Settled(s'.requests[r], outcome)
    ensures forall j :: 0 <= j < |events| ==> !(events[j].Finish? && events[j].r == r)
    decreases |events|
  {
    if events == [] {
    } else {
      SettledStep(cfg, s, events[0], r, outcome);
      SettledRun(cfg, Next(cfg, s, events[0]).value, events[1..], r, outcome);
      assert forall j :: 0 < j < |events| ==> events[j] == events[1..][j - 1];
    }
  }

  /** A body on its way to the client. */
  predicate Coming(q: Request, body: Bytes, etag: Option<Digest>, answered: nat) {
    match q.phase
    case Admitting(b, t, _, a) => b == body && t == etag && a == answered
    case Filling(b, t, _, a) => b == body && t == etag && a == answered
    case _ => false
  }

  /** One step: the body still comes, or it was streamed on for lack of room, or this was the end of the fill. */
  lemma ComingStep(cfg: Config, s: State, e: Event, r: ReqId, body: Bytes, etag: Option<Digest>, answered: nat)
    requires r in s.requests && Coming(s.requests[r], body, etag, answered) && Next(cfg, s, e).Some?
    ensures var s' := Next(cfg, s, e).value;
            && r in s'.requests
            && (e.Finish? && e.r == r ==>
                  Settled(s'.requests[r], if Spoils(cfg, e, r, etag, body) then Failed else Served(body, answered)))
            && (!(e.Finish? && e.r == r) ==>
                  Coming(s'.requests[r], body, etag, answered) || Settled(s'.requests[r], Served(body, answered)))
  {
    if e.Finish? && e.r == r {
      FinishExactly(cfg, s, r, e.chunks, e.now);
    }
  }

  lemma {:induction false} ComingRun(cfg: Config, s: State, events: seq<Event>, r: ReqId, body: Bytes,
                                     etag: Option<Digest>, answered: nat)
    requires r in s.requests && Coming(s.requests[r], body, etag, answered) && Run(cfg, s, events).Some?
    ensures var s' := Run(cfg, s, events).value;
            var outcome := if Spoiled(cfg, events, r, etag, body) then Failed else Served(body, answered);
            r in s'.requests && (Coming(s'.requests[r], body, etag, answered) || Settled(s'.requests[r], outcome))
    decreases |events|
  {
    if events == [] {
    } else {
      var e, rest, s' := events[0], events[1..], Next(cfg, s, events[0]).value;
      ComingStep(cfg, s, e, r, body, etag, answered);
      SpoiledFirst(cfg, events, r, etag, body);
      if Coming(s'.requests[r], body, etag, answered) {
        ComingRun(cfg, s', rest, r, body, etag, answered);
      } else {
        var outcome := if Spoils(cfg, e, r, etag, body) then Failed else Served(body, answered);
        SettledRun(cfg, s', rest, r, outcome);
        assert !Spoiled(cfg, rest, r, etag, body);
      }
    }
  }

  lemma SpoiledFirst(cfg: Config, events: seq<Event>, r: ReqId, etag: Option<Digest>, body: Bytes)
    requires events != []
    ensures Spoiled(cfg, events, r, etag, body) <==>
              Spoils(cfg, events[0], r, etag, body) || Spoiled(cfg, events[1..], r, etag, body)
  {
    if j :| 0 <= j < |events| && Spoils(cfg, events[j], r, etag, body) {
      assert j > 0 ==> events[1..][j - 1] == events[j];
    }
    if j :| 0 <= j < |events[1..]| && Spoils(cfg, events[1..][j], r, etag, body) {
      assert events[j + 1] == events[1..][j];
    }
  }

  /**
   Main result: the end of a leader's request, for every answer but a 304 and whatever comes between.  Without an
   answer it fails; another status is handed on; a body is answered whole with the content current at the answer,
   unless the stream broke or the tag of a body small enough to keep was wrong, and then it fails.
   */
  lemma LeaderAnsweredExactly(cfg: Config, s: State, r: ReqId, reply: Reply, after: seq<Event>)
    requires r in s.requests && s.requests[r].phase.Leading? && !reply.NotModified?
    requires AnswerStep(cfg, s, r, reply).Some? && Run(cfg, AnswerStep(cfg, s, r, reply).value, after).Some?
    ensures var s' := Run(cfg, AnswerStep(cfg, s, r, reply).value, after).value;
            var hist := Hist(s, s.requests[r].path);
            r in s'.requests &&
            (s'.requests[r].phase.Done? ==>
               var outcome := s'.requests[r].phase.outcome;
               && (reply.NoReply? ==> outcome == Failed)
               && (reply.Refusal? ==> outcome == Relayed)
               && (reply.Content? ==>
                     outcome == if Spoiled(cfg, after, r, reply.etag, hist[|hist| - 1]) then Failed
                                else Served(hist[|hist| - 1], |hist| - 1)))
  {
    var s1 := AnswerStep(cfg, s, r, reply).value;
    var hist := Hist(s, s.requests[r].path);
    match reply
    case NoReply => SettledRun(cfg, s1, after, r, Failed);
    case Refusal => SettledRun(cfg, s1, after, r, Relayed);
    case Content(etag, _) => ComingRun(cfg, s1, after, r, hist[|hist| - 1], etag, |hist| - 1);
  }
}
