/**
 Single flight and conservation: what every step of `CacheProtocol` keeps, whatever the
 upstream does.
 */
module CacheSafety {
  import opened ArtifactStore
  import opened CacheProtocol
  import opened Totals
  import opened Wrappers

  // ---------------------------------------------------------------- single flight

  /** Each inflight entry has exactly one live leader, and each leader its entry. */
  ghost predicate SingleFlight(s: State) {
    && (forall path <- s.store.inflight :: LeadHeld(s, path))
    && (forall r <- s.requests :: LeaderEntered(s, r))
  }

  predicate LeadHeld(s: State, path: Path)
    requires path in s.store.inflight
  {
    var r := s.store.inflight[path];
    r in s.requests && s.requests[r].path == path && Leads(s.requests[r].phase)
  }

  predicate LeaderEntered(s: State, r: ReqId)
    requires r in s.requests
  {
    var q := s.requests[r];
    Leads(q.phase) ==> q.path in s.store.inflight && s.store.inflight[q.path] == r
  }

  /** No path has two fills in progress. */
  lemma OneFillPerPath(s: State, r1: ReqId, r2: ReqId)
    requires SingleFlight(s) && r1 in s.requests && r2 in s.requests
    requires Leads(s.requests[r1].phase) && Leads(s.requests[r2].phase) && s.requests[r1].path == s.requests[r2].path
    ensures r1 == r2
  {
    assert LeaderEntered(s, r1) && LeaderEntered(s, r2);
  }

  lemma ReserveKeepsLeads(s: Store, order: seq<Digest>, needed: nat, max: nat)
    ensures Reserve(s, order, needed, max).0.inflight == s.inflight
    ensures Reserve(s, order, needed, max).0.refcounts == s.refcounts
    ensures Reserve(s, order, needed, max).0.bytesUsed <= s.bytesUsed
  {
    SweepKeepsLeads(s, order, needed, max);
  }

  lemma {:induction false} SweepKeepsLeads(s: Store, order: seq<Digest>, needed: nat, max: nat)
    ensures Sweep(s, order, needed, max).inflight == s.inflight
    ensures Sweep(s, order, needed, max).refcounts == s.refcounts
    ensures Sweep(s, order, needed, max).bytesUsed <= s.bytesUsed
    decreases |order|
  {
    if order != [] && s.bytesUsed + needed > max {
      var next := if Pinned(s, order[0]) || order[0] !in s.blobs then s else Evict(s, order[0]);
      SweepKeepsLeads(next, order[1..], needed, max);
    }
  }

  ghost predicate SameLeads(s: State, s': State) {
    && s'.store.inflight == s.store.inflight
    && s.requests.Keys <= s'.requests.Keys
    && (forall r <- s.requests :: s'.requests[r].path == s.requests[r].path
                               && (Leads(s'.requests[r].phase) <==> Leads(s.requests[r].phase)))
    && (forall r <- s'.requests :: r in s.requests || !Leads(s'.requests[r].phase))
  }

  lemma OneRequestMoves(s: State, s': State, r: ReqId, q: Request)
    requires s'.requests == s.requests[r := q] && s'.store.inflight == s.store.inflight
    requires r in s.requests ==> q.path == s.requests[r].path && (Leads(q.phase) <==> Leads(s.requests[r].phase))
    requires r !in s.requests ==> !Leads(q.phase)
    ensures SameLeads(s, s')
  {
  }

  /**
   Steps other than taking and dropping the lead leave the inflight table alone and nobody starts or stops leading.
   */
  lemma StepsKeepLeads(cfg: Config, s: State, e: Event)
    requires Next(cfg, s, e).Some? && !e.TakeLead? && !e.Release?
    ensures SameLeads(s, Next(cfg, s, e).value)
  {
    var s' := Next(cfg, s, e).value;
    if e.Admit? {
      ReserveKeepsLeads(s.store, e.order, s.requests[e.r].phase.declared, cfg.maxBytes);
    }
    if !e.Upload? {
      OneRequestMoves(s, s', e.r, s'.requests[e.r]);
    }
  }

  lemma SingleFlightStep(cfg: Config, s: State, e: Event)
    requires SingleFlight(s) && Next(cfg, s, e).Some?
    ensures SingleFlight(Next(cfg, s, e).value)
  {
    var s' := Next(cfg, s, e).value;
    if !e.TakeLead? && !e.Release? {
      StepsKeepLeads(cfg, s, e);
      forall path | path in s'.store.inflight ensures LeadHeld(s', path) {
        assert LeadHeld(s, path);
      }
      forall r | r in s'.requests ensures LeaderEntered(s', r) {
        assert r in s.requests ==> LeaderEntered(s, r);
      }
    } else {
      var path := s.requests[e.r].path;
      forall p | p in s'.store.inflight ensures LeadHeld(s', p) {
        assert p in s.store.inflight ==> LeadHeld(s, p);
        assert LeaderEntered(s, e.r);
      }
      forall r | r in s'.requests ensures LeaderEntered(s', r) {
        assert LeaderEntered(s, r) && LeaderEntered(s, e.r);
      }
    }
  }

  /** Only the leader removes its entry, and only by ending its own fill. */
  lemma OnlyTheLeaderDropsItsLead(cfg: Config, s: State, e: Event, path: Path)
    requires SingleFlight(s) && Next(cfg, s, e).Some? && path in s.store.inflight
    requires path !in Next(cfg, s, e).value.store.inflight
          || Next(cfg, s, e).value.store.inflight[path] != s.store.inflight[path]
    ensures e == Release(s.store.inflight[path]) && path !in Next(cfg, s, e).value.store.inflight
  {
    if !e.Release? && !e.TakeLead? {
      StepsKeepLeads(cfg, s, e);
    } else {
      assert LeaderEntered(s, e.r);
    }
  }

  /** A request that finds its path being filled waits, and stops waiting only when woken or out of time. */
  lemma ArrivalsWaitForTheLeader(cfg: Config, s: State, e: Event, r: ReqId)
    requires Next(cfg, s, e).Some?
    ensures e.Arrive? && e.r == r ==>
              (Next(cfg, s, e).value.requests[r].phase.Waiting? <==> e.path in s.store.inflight)
    ensures r in s.requests && s.requests[r].phase.Waiting? ==>
              (Next(cfg, s, e).value.requests[r].phase.Waiting? <==> e != Wake(r) && e != TimeOut(r))
  {
  }

  /** How a request can end that never took the lead: plain forwarding, or the follower's 503. */
  lemma FollowersFallThroughOrTimeOut(cfg: Config, s: State, e: Event, r: ReqId)
    requires SingleFlight(s) && Next(cfg, s, e).Some? && r in s.requests
    requires !s.requests[r].phase.Done? && Next(cfg, s, e).value.requests[r].phase.Done?
    ensures Leads(s.requests[r].phase) ==> s.store.inflight[s.requests[r].path] == r && e == Release(r)
    ensures !Leads(s.requests[r].phase) ==>
              (e == TimeOut(r) && Next(cfg, s, e).value.requests[r].phase.outcome == FillInProgress) || e.AnswerDirect?
  {
    assert LeaderEntered(s, r);
  }

  // ---------------------------------------------------------------- conservation

  predicate Reads(q: Request, sha: Digest) {
    q.phase.Reading? && q.phase.sha == sha
  }

  function Readers(requests: map<ReqId, Request>, sha: Digest): set<ReqId> {
    set r | r in requests && Reads(requests[r], sha)
  }

  /** Each pin count is the number of reads in progress. */
  ghost predicate PinsCountReaders(s: State) {
    forall sha :: Pins(s.store, sha) == |Readers(s.requests, sha)|
  }

  ghost predicate Conserved(cfg: Config, s: State) {
    Consistent(s.store) && ContentAddressed(cfg.sha256, s.store) && PinsCountReaders(s)
  }

  lemma ReadersAfter(requests: map<ReqId, Request>, r: ReqId, q: Request, sha: Digest)
    ensures Readers(requests[r := q], sha)
         == if Reads(q, sha) then Readers(requests, sha) + {r} else Readers(requests, sha) - {r}
  {
  }

  /** A step of a request that neither starts nor ends a read. */
  lemma PinsUnmoved(s: State, s': State, r: ReqId, q: Request)
    requires PinsCountReaders(s) && s'.requests == s.requests[r := q] && s'.store.refcounts == s.store.refcounts
    requires (r in s.requests ==> !s.requests[r].phase.Reading?) && !q.phase.Reading?
    ensures PinsCountReaders(s')
  {
    forall sha ensures Pins(s'.store, sha) == |Readers(s'.requests, sha)| {
      ReadersAfter(s.requests, r, q, sha);
      assert Readers(s.requests, sha) - {r} == Readers(s.requests, sha);
      assert Pins(s.store, sha) == |Readers(s.requests, sha)|;
    }
  }

  lemma PinMovesCount(s: State, r: ReqId, now: Instant)
    requires PinsCountReaders(s) && r in s.requests && s.requests[r].phase.Revalidated?
    ensures PinsCountReaders(PinStep(s, r, now))
  {
    var s' := PinStep(s, r, now);
    if s'.requests[r].phase.Reading? {
      forall sha ensures Pins(s'.store, sha) == |Readers(s'.requests, sha)| {
        ReadersAfter(s.requests, r, s'.requests[r], sha);
        assert r !in Readers(s.requests, sha);
        assert Readers(s.requests, sha) - {r} == Readers(s.requests, sha);
        assert Pins(s.store, sha) == |Readers(s.requests, sha)|;
      }
    } else {
      PinsUnmoved(s, s', r, s'.requests[r]);
    }
  }

  lemma ReadMovesCount(cfg: Config, s: State, r: ReqId)
    requires PinsCountReaders(s) && Next(cfg, s, Read(r)).Some?
    ensures PinsCountReaders(Next(cfg, s, Read(r)).value)
  {
    var s' := Next(cfg, s, Read(r)).value;
    var mine := s.requests[r].phase.sha;
    forall sha ensures Pins(s'.store, sha) == |Readers(s'.requests, sha)| {
      ReadersAfter(s.requests, r, s'.requests[r], sha);
      assert Pins(s.store, sha) == |Readers(s.requests, sha)|;
      assert Pins(s.store, mine) == |Readers(s.requests, mine)|;
      assert r in Readers(s.requests, mine);
      if sha == mine {
        assert |Readers(s.requests, sha) - {r}| == |Readers(s.requests, sha)| - 1;
      } else {
        assert Readers(s.requests, sha) - {r} == Readers(s.requests, sha);
      }
    }
  }

  lemma AdmitKeepsConserved(cfg: Config, s: State, r: ReqId, order: seq<Digest>)
    requires Conserved(cfg, s) && r in s.requests && s.requests[r].phase.Admitting? && AdmitStep(cfg, s, r, order).Some?
    ensures Conserved(cfg, AdmitStep(cfg, s, r, order).value)
  {
    var s' := AdmitStep(cfg, s, r, order).value;
    var needed := s.requests[r].phase.declared;
    if needed > 0 {
      ReserveIsExactLru(s.store, order, needed, cfg.maxBytes);
      ReserveOnlyRemoves(s.store, order, needed, cfg.maxBytes);
      ReserveKeepsLeads(s.store, order, needed, cfg.maxBytes);
    }
    PinsUnmoved(s, s', r, s'.requests[r]);
  }

  lemma ReserveOnlyRemoves(s: Store, order: seq<Digest>, needed: nat, max: nat)
    requires Consistent(s) && LruOrder(order, s.lastUsed)
    ensures forall sha <- Reserve(s, order, needed, max).0.blobs ::
              sha in s.blobs && Reserve(s, order, needed, max).0.blobs[sha] == s.blobs[sha]
  {
    ReserveIsExactLru(s, order, needed, max);
  }

  lemma FinishKeepsConserved(cfg: Config, s: State, r: ReqId, chunks: seq<Chunk>, now: Instant)
    requires Conserved(cfg, s) && r in s.requests && s.requests[r].phase.Filling?
    ensures Conserved(cfg, FinishStep(cfg, s, r, chunks, now))
  {
    var s' := FinishStep(cfg, s, r, chunks, now);
    var q := s.requests[r];
    var outcome := FillBody(cfg.sha256, cfg.maxBytes, q.phase.etag, chunks);
    if outcome.Stored? {
      PublishKeepsConsistent(s.store, q.path, cfg.sha256(outcome.body), outcome.body, now);
    }
    PinsUnmoved(s, s', r, s'.requests[r]);
  }

  lemma PinKeepsConserved(cfg: Config, s: State, r: ReqId, now: Instant)
    requires Conserved(cfg, s) && r in s.requests && s.requests[r].phase.Revalidated?
    ensures Conserved(cfg, PinStep(s, r, now))
  {
    PinMovesCount(s, r, now);
    var known := s.requests[r].phase.known;
    if known != [] && known[0] in s.store.blobs {
      PinKeepsConsistent(s.store, known[0], now);
    }
  }

  lemma ReadKeepsConserved(cfg: Config, s: State, r: ReqId)
    requires Conserved(cfg, s) && Next(cfg, s, Read(r)).Some?
    ensures Conserved(cfg, Next(cfg, s, Read(r)).value)
  {
    ReadMovesCount(cfg, s, r);
    UnpinKeepsConsistent(s.store, s.requests[r].phase.sha);
  }

  lemma LeadStepKeepsConserved(cfg: Config, s: State, e: Event)
    requires Conserved(cfg, s) && Next(cfg, s, e).Some? && (e.TakeLead? || e.Release?)
    ensures Conserved(cfg, Next(cfg, s, e).value)
  {
    var s' := Next(cfg, s, e).value;
    LeadKeepsConsistent(s.store, s.requests[e.r].path, e.r);
    PinsUnmoved(s, s', e.r, s'.requests[e.r]);
  }

  lemma ConservedStep(cfg: Config, s: State, e: Event)
    requires Conserved(cfg, s) && Next(cfg, s, e).Some?
    ensures Conserved(cfg, Next(cfg, s, e).value)
  {
    var s' := Next(cfg, s, e).value;
    match e
    case Upload(path, content) =>
      forall sha ensures Pins(s'.store, sha) == |Readers(s'.requests, sha)| {
        assert Pins(s.store, sha) == |Readers(s.requests, sha)|;
      }
    case Admit(r, order) => AdmitKeepsConserved(cfg, s, r, order);
    case Finish(r, chunks, now) => FinishKeepsConserved(cfg, s, r, chunks, now);
    case PinFirst(r, _, now) => PinKeepsConserved(cfg, s, r, now);
    case Read(r) => ReadKeepsConserved(cfg, s, r);
    case TakeLead(r) => LeadStepKeepsConserved(cfg, s, e);
    case Release(r) => LeadStepKeepsConserved(cfg, s, e);
    case _ => PinsUnmoved(s, s', e.r, s'.requests[e.r]);
  }

  // ---------------------------------------------------------------- over whole runs

  ghost predicate Safe(cfg: Config, s: State) {
    SingleFlight(s) && Conserved(cfg, s)
  }

  lemma InitIsSafe(cfg: Config, s: State)
    requires Init(cfg, s)
    ensures Safe(cfg, s)
  {
    forall sha ensures Pins(s.store, sha) == |Readers(s.requests, sha)| {
      assert Readers(s.requests, sha) == {};
    }
  }

  lemma {:induction false} SafeRun(cfg: Config, s: State, events: seq<Event>)
    requires Safe(cfg, s) && Run(cfg, s, events).Some?
    ensures Safe(cfg, Run(cfg, s, events).value)
    decreases |events|
  {
    if events == [] {
    } else {
      SingleFlightStep(cfg, s, events[0]);
      ConservedStep(cfg, s, events[0]);
      SafeRun(cfg, Next(cfg, s, events[0]).value, events[1..]);
    }
  }

  /** Main result: single flight and conservation hold in every state any interleaving reaches. */
  lemma ReachableStatesAreSafe(cfg: Config, init: State, events: seq<Event>)
    requires Init(cfg, init) && Run(cfg, init, events).Some?
    ensures Safe(cfg, Run(cfg, init, events).value)
  {
    InitIsSafe(cfg, init);
    SafeRun(cfg, init, events);
  }

  /** A blob being read is never removed: every pinned read can complete. */
  lemma PinnedReadsComplete(cfg: Config, init: State, events: seq<Event>, r: ReqId)
    requires Init(cfg, init) && Run(cfg, init, events).Some?
    requires var s := Run(cfg, init, events).value; r in s.requests && s.requests[r].phase.Reading?
    ensures Next(cfg, Run(cfg, init, events).value, Read(r)).Some?
  {
    ReachableStatesAreSafe(cfg, init, events);
    var s := Run(cfg, init, events).value;
    var sha := s.requests[r].phase.sha;
    assert r in Readers(s.requests, sha);
    assert Pins(s.store, sha) == |Readers(s.requests, sha)|;
    assert Pinned(s.store, sha);
  }
}
