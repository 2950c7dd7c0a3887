/**
 What the eviction order rests on: the stamp of a stored blob is the instant of its latest
 use in the run, a publication or a pin, told from the events alone.
 */
module CacheRecency {
  import opened ArtifactStore
  import opened CacheProtocol
  import opened CacheSafety
  import opened Wrappers

  /** The tag of the body a request is being answered with, told from the events. */
  function TagOf(events: seq<Event>, r: ReqId): Option<Digest> {
    if events == [] then None
    else
      var e := events[|events| - 1];
      if e.Answer? && e.r == r && e.reply.Content? then e.reply.etag else TagOf(events[..|events| - 1], r)
  }

  /** The event is a publication of the digest: a whole body, small enough, tagged with its digest. */
  predicate Publishes(cfg: Config, before: seq<Event>, e: Event, sha: Digest) {
    && e.Finish? && Broken !in e.chunks && |Concat(e.chunks)| <= cfg.maxBytes / 4
    && cfg.sha256(Concat(e.chunks)) == sha && TagOf(before, e.r) == Some(sha)
  }

  predicate Uses(cfg: Config, before: seq<Event>, e: Event, sha: Digest) {
    Publishes(cfg, before, e, sha) || (e.PinFirst? && e.first == Some(sha))
  }

  /** The instant of the latest event that uses the digest, or its stamp at start-up. */
  function LatestUse(cfg: Config, start: map<Digest, Instant>, events: seq<Event>, sha: Digest): Option<Instant> {
    if events == [] then if sha in start then Some(start[sha]) else None
    else
      var before, e := events[..|events| - 1], events[|events| - 1];
      if Uses(cfg, before, e, sha) then Some(e.now) else LatestUse(cfg, start, before, sha)
  }

  // ---------------------------------------------------------------- runs from the back

  lemma {:induction false} RunInit(cfg: Config, s: State, events: seq<Event>)
    requires events != [] && Run(cfg, s, events).Some?
    ensures var n := |events| - 1;
            && Run(cfg, s, events[..n]).Some?
            && Next(cfg, Run(cfg, s, events[..n]).value, events[n]) == Run(cfg, s, events)
    decreases |events|
  {
    var n := |events| - 1;
    if n == 0 {
      assert events[..n] == [];
      assert events[1..] == [];
    } else {
      var s' := Next(cfg, s, events[0]).value;
      assert events[1..][..n - 1] == events[..n][1..] && events[1..][n - 1] == events[n];
      RunInit(cfg, s', events[1..]);
    }
  }

  // ---------------------------------------------------------------- tags

  /** Every body on its way carries the tag its answer came with. */
  ghost predicate TagsKnown(s: State, events: seq<Event>) {
    forall r <- s.requests ::
      s.requests[r].phase.Admitting? || s.requests[r].phase.Filling? ==> s.requests[r].phase.etag == TagOf(events, r)
  }

  /** Only an answer brings a body, and admission keeps its tag. */
  lemma TagOfMover(cfg: Config, s: State, e: Event)
    requires Next(cfg, s, e).Some? && !e.Upload?
    ensures var s' := Next(cfg, s, e).value;
            && e.r in s'.requests
            && var p := s'.requests[e.r].phase;
               p.Admitting? || p.Filling? ==>
                 || (e.Answer? && e.reply.Content? && p.etag == e.reply.etag)
                 || (e.Admit? && s.requests[e.r].phase.Admitting? && p.etag == s.requests[e.r].phase.etag)
  {
  }

  lemma OthersUnmoved(cfg: Config, s: State, e: Event, r: ReqId)
    requires Next(cfg, s, e).Some? && (e.Upload? || e.r != r)
    ensures var s' := Next(cfg, s, e).value;
            (r in s'.requests <==> r in s.requests) && (r in s.requests ==> s'.requests[r] == s.requests[r])
  {
  }

  lemma TagsStep(cfg: Config, s: State, events: seq<Event>, e: Event)
    requires TagsKnown(s, events) && Next(cfg, s, e).Some?
    ensures TagsKnown(Next(cfg, s, e).value, events + [e])
  {
    var s' := Next(cfg, s, e).value;
    assert (events + [e])[..|events|] == events;
    forall r | r in s'.requests && (s'.requests[r].phase.Admitting? || s'.requests[r].phase.Filling?)
      ensures s'.requests[r].phase.etag == TagOf(events + [e], r)
    {
      if e.Upload? || e.r != r {
        OthersUnmoved(cfg, s, e, r);
      } else {
        TagOfMover(cfg, s, e);
      }
    }
  }

  // ---------------------------------------------------------------- stamps

  /** Every stored blob is dated by its latest use. */
  ghost predicate Dated(cfg: Config, start: map<Digest, Instant>, s: State, events: seq<Event>) {
    forall sha <- s.store.blobs ::
      sha in s.store.lastUsed && LatestUse(cfg, start, events, sha) == Some(s.store.lastUsed[sha])
  }

  /** An event dates what it uses and keeps all other stamps; only a publication adds a blob. */
  lemma StampStep(cfg: Config, s: State, events: seq<Event>, e: Event, sha: Digest)
    requires Conserved(cfg, s) && TagsKnown(s, events) && Next(cfg, s, e).Some?
    requires sha in Next(cfg, s, e).value.store.blobs
    ensures var s' := Next(cfg, s, e).value;
            && sha in s'.store.lastUsed
            && (Uses(cfg, events, e, sha) ==> s'.store.lastUsed[sha] == e.now)
            && (!Uses(cfg, events, e, sha) ==> sha in s.store.blobs && s'.store.lastUsed[sha] == s.store.lastUsed[sha])
  {
    match e
    case Admit(r, order) => AdmitKeepsStamps(cfg, s, r, order, sha);
    case Finish(r, chunks, now) => FinishStamps(cfg, s, events, r, chunks, now, sha);
    case PinFirst(r, first, now) => PinStamps(cfg, s, r, first, now, sha);
    case _ => OtherStamps(cfg, s, e);
  }

  lemma OtherStamps(cfg: Config, s: State, e: Event)
    requires Next(cfg, s, e).Some? && !e.Admit? && !Timed(e)
    ensures Next(cfg, s, e).value.store.lastUsed == s.store.lastUsed
    ensures Next(cfg, s, e).value.store.blobs == s.store.blobs
  {
  }

  lemma AdmitKeepsStamps(cfg: Config, s: State, r: ReqId, order: seq<Digest>, sha: Digest)
    requires Conserved(cfg, s) && r in s.requests && s.requests[r].phase.Admitting? && AdmitStep(cfg, s, r, order).Some?
    requires sha in AdmitStep(cfg, s, r, order).value.store.blobs
    ensures var s' := AdmitStep(cfg, s, r, order).value;
            && sha in s.store.blobs && sha in s'.store.lastUsed && s'.store.lastUsed[sha] == s.store.lastUsed[sha]
  {
    var needed := s.requests[r].phase.declared;
    if needed > 0 {
      ReserveIsExactLru(s.store, order, needed, cfg.maxBytes);
    }
  }

  lemma FinishStamps(cfg: Config, s: State, events: seq<Event>, r: ReqId, chunks: seq<Chunk>, now: Instant, sha: Digest)
    requires Conserved(cfg, s) && TagsKnown(s, events) && Next(cfg, s, Finish(r, chunks, now)).Some?
    requires sha in FinishStep(cfg, s, r, chunks, now).store.blobs
    ensures var s' := FinishStep(cfg, s, r, chunks, now);
            && sha in s'.store.lastUsed
            && (Publishes(cfg, events, Finish(r, chunks, now), sha) ==> s'.store.lastUsed[sha] == now)
            && (!Publishes(cfg, events, Finish(r, chunks, now), sha) ==>
                  sha in s.store.blobs && s'.store.lastUsed[sha] == s.store.lastUsed[sha])
  {
    assert s.requests[r].phase.etag == TagOf(events, r);
  }

  lemma PinStamps(cfg: Config, s: State, r: ReqId, first: Option<Digest>, now: Instant, sha: Digest)
    requires Conserved(cfg, s) && Next(cfg, s, PinFirst(r, first, now)).Some?
    requires sha in PinStep(s, r, now).store.blobs
    ensures var s' := PinStep(s, r, now);
            && sha in s.store.blobs && sha in s'.store.lastUsed
            && s'.store.lastUsed[sha] == if first == Some(sha) then now else s.store.lastUsed[sha]
  {
  }

  lemma DatedStep(cfg: Config, start: map<Digest, Instant>, s: State, events: seq<Event>, e: Event)
    requires Conserved(cfg, s) && TagsKnown(s, events) && Dated(cfg, start, s, events) && Next(cfg, s, e).Some?
    ensures Dated(cfg, start, Next(cfg, s, e).value, events + [e])
  {
    assert (events + [e])[..|events|] == events;
    forall sha | sha in Next(cfg, s, e).value.store.blobs
      ensures sha in Next(cfg, s, e).value.store.lastUsed
      ensures LatestUse(cfg, start, events + [e], sha) == Some(Next(cfg, s, e).value.store.lastUsed[sha])
    {
      StampStep(cfg, s, events, e, sha);
    }
  }

  lemma {:induction false} DatedRun(cfg: Config, init: State, events: seq<Event>)
    requires Init(cfg, init) && Run(cfg, init, events).Some?
    ensures var s := Run(cfg, init, events).value;
            Conserved(cfg, s) && TagsKnown(s, events) && Dated(cfg, init.store.lastUsed, s, events)
    decreases |events|
  {
    if events == [] {
      InitIsSafe(cfg, init);
    } else {
      var n := |events| - 1;
      RunInit(cfg, init, events);
      DatedRun(cfg, init, events[..n]);
      var s := Run(cfg, init, events[..n]).value;
      assert events == events[..n] + [events[n]];
      ConservedStep(cfg, s, events[n]);
      TagsStep(cfg, s, events[..n], events[n]);
      DatedStep(cfg, init.store.lastUsed, s, events[..n], events[n]);
    }
  }

  /**
   Main result: in every run a stored blob is dated by its latest publication or pin, or else by its stamp at
   start-up.
   */
  lemma StampIsLatestUse(cfg: Config, init: State, events: seq<Event>, sha: Digest)
    requires Init(cfg, init) && Run(cfg, init, events).Some? && sha in Run(cfg, init, events).value.store.blobs
    ensures var store := Run(cfg, init, events).value.store;
            && sha in store.lastUsed
            && LatestUse(cfg, init.store.lastUsed, events, sha) == Some(store.lastUsed[sha])
  {
    DatedRun(cfg, init, events);
  }

  lemma EvictedByStamp(cfg: Config, s: State, r: ReqId, order: seq<Digest>, victim: Digest, survivor: Digest)
    requires Consistent(s.store) && Next(cfg, s, Admit(r, order)).Some?
    requires victim in s.store.blobs && victim !in Next(cfg, s, Admit(r, order)).value.store.blobs
    requires survivor in Next(cfg, s, Admit(r, order)).value.store.blobs && !Pinned(s.store, survivor)
    ensures survivor in s.store.blobs && s.store.lastUsed[victim] <= s.store.lastUsed[survivor]
  {
    SurvivorsAreRecentOrPinned(s.store, order, s.requests[r].phase.declared, cfg.maxBytes, victim, survivor);
  }

  /**
   Eviction by use over whole runs: a reservation that evicts a blob leaves no unpinned blob whose latest use in
   the run is earlier.
   */
  lemma EvictionFollowsUse(cfg: Config, init: State, events: seq<Event>, r: ReqId, order: seq<Digest>,
                           victim: Digest, survivor: Digest)
    requires Init(cfg, init) && Run(cfg, init, events + [Admit(r, order)]).Some? && Run(cfg, init, events).Some?
    requires victim in Run(cfg, init, events).value.store.blobs
    requires victim !in Run(cfg, init, events + [Admit(r, order)]).value.store.blobs
    requires survivor in Run(cfg, init, events + [Admit(r, order)]).value.store.blobs
    requires !Pinned(Run(cfg, init, events).value.store, survivor)
    ensures var start := init.store.lastUsed;
            && LatestUse(cfg, start, events, victim).Some? && LatestUse(cfg, start, events, survivor).Some?
            && LatestUse(cfg, start, events, victim).value <= LatestUse(cfg, start, events, survivor).value
  {
    var longer := events + [Admit(r, order)];
    RunInit(cfg, init, longer);
    assert longer[..|events|] == events;
    DatedRun(cfg, init, events);
    EvictedByStamp(cfg, Run(cfg, init, events).value, r, order, victim, survivor);
  }

  // ---------------------------------------------------------------- the latest use is the last one in time

  predicate Timed(e: Event) {
    e.Finish? || e.PinFirst?
  }

  /** The clock of the publications and pins never runs backwards. */
  predicate Ordered(events: seq<Event>) {
    forall i, j :: 0 <= i < j < |events| && Timed(events[i]) && Timed(events[j]) ==> events[i].now <= events[j].now
  }

  /** With a nondecreasing clock no use of the digest in the run is later than the latest one. */
  lemma {:induction false} LatestUseIsMaximal(cfg: Config, start: map<Digest, Instant>, events: seq<Event>,
                                              sha: Digest, j: nat)
    requires Ordered(events) && j < |events| && Uses(cfg, events[..j], events[j], sha)
    ensures var latest := LatestUse(cfg, start, events, sha); latest.Some? && events[j].now <= latest.value
    decreases |events|
  {
    var n := |events| - 1;
    var before := events[..n];
    if j == n {
      assert events[..j] == before;
    } else if !Uses(cfg, before, events[n], sha) {
      assert before[..j] == events[..j];
      LatestUseIsMaximal(cfg, start, before, sha, j);
    }
  }
}
