/**
 Why `CacheTransparency` needs the hypothesis that content does not return.  A 304 may mean
 any of the validators sent, the proxy always serves the first known digest: after A, B and
 A again, a client gets B while the upstream holds A.
 */
module CacheStale {
  import opened ArtifactStore
  import opened CacheProtocol
  import opened CacheSafety
  import opened CacheTransparency
  import opened Wrappers

  // ---------------------------------------------------------------- what a 304 is answered with

  /** The digests a request read at its start, while it still goes by them. */
  function Snapshotted(p: Phase): seq<Digest> {
    match p
    case Snapshotted(known) => known
    case Leading(known) => known
    case Revalidated(known, _) => known
    case _ => []
  }

  /** Whatever a request read of a path's list has no duplicates. */
  ghost predicate DistinctSnapshots(s: State) {
    forall r <- s.requests :: NoDuplicates(Snapshotted(s.requests[r].phase))
  }

  /** A step reads a stored list, or leaves the mover with what it had read, or with nothing. */
  lemma SnapshotOfMover(cfg: Config, s: State, e: Event)
    requires Next(cfg, s, e).Some? && !e.Upload?
    ensures var s' := Next(cfg, s, e).value;
            && e.r in s'.requests
            && var read := Snapshotted(s'.requests[e.r].phase);
               || read == []
               || (e.r in s.requests && read == Known(s.store, s.requests[e.r].path))
               || (e.r in s.requests && read == Snapshotted(s.requests[e.r].phase))
  {
  }

  lemma StoredListIsDistinct(s: Store, path: Path)
    requires IndexSound(s)
    ensures NoDuplicates(Known(s, path))
  {
    assert path in s.index ==> ListSound(s.index[path], s.blobs.Keys);
  }

  lemma DistinctSnapshotsStep(cfg: Config, s: State, e: Event)
    requires IndexSound(s.store) && DistinctSnapshots(s) && Next(cfg, s, e).Some?
    ensures DistinctSnapshots(Next(cfg, s, e).value)
  {
    var s' := Next(cfg, s, e).value;
    forall r | r in s'.requests ensures NoDuplicates(Snapshotted(s'.requests[r].phase)) {
      if e.Upload? || e.r != r {
        assert s'.requests[r] == s.requests[r];
      } else {
        SnapshotOfMover(cfg, s, e);
        if r in s.requests {
          StoredListIsDistinct(s.store, s.requests[r].path);
        }
      }
    }
  }

  /** The only 200 that answers a 304: the blob of the first known digest. */
  predicate AnswersFirst(cfg: Config, outcome: Outcome, known: seq<Digest>, answered: nat) {
    || outcome == BlobMissing
    || (known != [] && outcome.Served? && outcome.answered == answered && cfg.sha256(outcome.body) == known[0])
  }

  /** A request after a 304, wherever the other requests have got to. */
  predicate AfterNotModified(cfg: Config, q: Request, known: seq<Digest>, answered: nat) {
    match q.phase
    case Revalidated(k, a) => k == known && a == answered
    case Reading(sha, a) => known != [] && sha == known[0] && a == answered
    case Releasing(outcome) => AnswersFirst(cfg, outcome, known, answered)
    case Done(outcome, _) => AnswersFirst(cfg, outcome, known, answered)
    case _ => false
  }

  lemma AfterNotModifiedStep(cfg: Config, s: State, e: Event, r: ReqId, known: seq<Digest>, answered: nat)
    requires ContentAddressed(cfg.sha256, s.store) && Next(cfg, s, e).Some?
    requires r in s.requests && AfterNotModified(cfg, s.requests[r], known, answered)
    ensures r in Next(cfg, s, e).value.requests
    ensures AfterNotModified(cfg, Next(cfg, s, e).value.requests[r], known, answered)
  {
    if e.Upload? || e.r != r {
      OthersLeaveAlone(cfg, s, e, r);
    }
  }

  lemma OthersLeaveAlone(cfg: Config, s: State, e: Event, r: ReqId)
    requires Next(cfg, s, e).Some? && r in s.requests && (e.Upload? || e.r != r)
    ensures r in Next(cfg, s, e).value.requests && Next(cfg, s, e).value.requests[r] == s.requests[r]
  {
  }

  lemma {:induction false} AfterNotModifiedRun(cfg: Config, s: State, events: seq<Event>, r: ReqId, known: seq<Digest>,
                                               answered: nat)
    requires Safe(cfg, s) && Run(cfg, s, events).Some?
    requires r in s.requests && AfterNotModified(cfg, s.requests[r], known, answered)
    ensures var s' := Run(cfg, s, events).value;
            r in s'.requests && AfterNotModified(cfg, s'.requests[r], known, answered)
    decreases |events|
  {
    if events == [] {
    } else {
      AfterNotModifiedStep(cfg, s, events[0], r, known, answered);
      SingleFlightStep(cfg, s, events[0]);
      ConservedStep(cfg, s, events[0]);
      AfterNotModifiedRun(cfg, Next(cfg, s, events[0]).value, events[1..], r, known, answered);
    }
  }

  lemma {:induction false} ReachableSnapshotsAreDistinct(cfg: Config, s: State, events: seq<Event>)
    requires Safe(cfg, s) && DistinctSnapshots(s) && Run(cfg, s, events).Some?
    ensures Safe(cfg, Run(cfg, s, events).value) && DistinctSnapshots(Run(cfg, s, events).value)
    decreases |events|
  {
    if events == [] {
    } else {
      DistinctSnapshotsStep(cfg, s, events[0]);
      SingleFlightStep(cfg, s, events[0]);
      ConservedStep(cfg, s, events[0]);
      ReachableSnapshotsAreDistinct(cfg, Next(cfg, s, events[0]).value, events[1..]);
    }
  }

  /** How a request that was answered 304 can end, in any state that any further interleaving leads to. */
  lemma NotModifiedAnswered(cfg: Config, s: State, r: ReqId, after: seq<Event>)
    requires Injective(cfg.sha256) && Safe(cfg, s) && DistinctSnapshots(s)
    requires r in s.requests && s.requests[r].phase.Leading? && AnswerStep(cfg, s, r, NotModified).Some?
    requires Run(cfg, AnswerStep(cfg, s, r, NotModified).value, after).Some?
    ensures var q := s.requests[r];
            var hist := Hist(s, q.path);
            var s' := Run(cfg, AnswerStep(cfg, s, r, NotModified).value, after).value;
            r in s'.requests &&
            (s'.requests[r].phase.Done? ==>
               var outcome := s'.requests[r].phase.outcome;
               && (outcome == BlobMissing || (outcome.Served? && q.phase.known != [] && outcome.answered == |hist| - 1))
               && (outcome.Served? ==>
                     (outcome.body == hist[|hist| - 1]
                      <==> cfg.sha256(hist[|hist| - 1]) !in Validators(q.phase.known)[1..])))
  {
    var q := s.requests[r];
    var hist, known := Hist(s, q.path), q.phase.known;
    var s1 := AnswerStep(cfg, s, r, NotModified).value;
    assert Next(cfg, s, Answer(r, NotModified)) == Some(s1);
    SingleFlightStep(cfg, s, Answer(r, NotModified));
    ConservedStep(cfg, s, Answer(r, NotModified));
    AfterNotModifiedRun(cfg, s1, after, r, known, |hist| - 1);
    if known != [] {
      assert Snapshotted(q.phase) == known;
      RevalidationExact(known, cfg.sha256(hist[|hist| - 1]));
    }
  }

  /**
   Main result: exactly when a 304 is answered correctly.  In every run, whatever comes between the leader's
   304 and the end of its request, a 200 carries the content that was current at the 304 if and only if its
   digest is not among the validators after the first; the only other end is the 503 for a missing blob.
   */
  lemma RevalidatedAnswerExact(cfg: Config, init: State, before: seq<Event>, r: ReqId, after: seq<Event>)
    requires Injective(cfg.sha256) && Init(cfg, init) && Run(cfg, init, before).Some?
    requires var s := Run(cfg, init, before).value;
             && r in s.requests && s.requests[r].phase.Leading? && AnswerStep(cfg, s, r, NotModified).Some?
             && Run(cfg, AnswerStep(cfg, s, r, NotModified).value, after).Some?
    ensures var s := Run(cfg, init, before).value;
            var known, hist := s.requests[r].phase.known, Hist(s, s.requests[r].path);
            var s' := Run(cfg, AnswerStep(cfg, s, r, NotModified).value, after).value;
            r in s'.requests &&
            (s'.requests[r].phase.Done? ==>
               var outcome := s'.requests[r].phase.outcome;
               && (outcome == BlobMissing || (outcome.Served? && known != [] && outcome.answered == |hist| - 1))
               && (outcome.Served? ==>
                     (outcome.body == hist[|hist| - 1] <==> cfg.sha256(hist[|hist| - 1]) !in Validators(known)[1..])))
  {
    InitIsSafe(cfg, init);
    ReachableSnapshotsAreDistinct(cfg, init, before);
    NotModifiedAnswered(cfg, Run(cfg, init, before).value, r, after);
  }

  // ---------------------------------------------------------------- runs, one event at a time

  lemma {:induction false} RunOneMore(cfg: Config, s: State, events: seq<Event>, e: Event)
    requires Run(cfg, s, events).Some?
    ensures Run(cfg, s, events + [e]) == Next(cfg, Run(cfg, s, events).value, e)
    decreases |events|
  {
    if events == [] {
      assert events + [e] == [e];
    } else {
      assert (events + [e])[1..] == events[1..] + [e];
      RunOneMore(cfg, Next(cfg, s, events[0]).value, events[1..], e);
    }
  }

  /** A run so far: where it started, its events, where it is. */
  ghost predicate At(cfg: Config, init: State, events: seq<Event>, s: State) {
    Run(cfg, init, events) == Some(s)
  }

  lemma Extend(cfg: Config, init: State, events: seq<Event>, s: State, e: Event) returns (longer: seq<Event>, s': State)
    requires At(cfg, init, events, s) && Next(cfg, s, e).Some?
    ensures longer == events + [e] && s' == Next(cfg, s, e).value && At(cfg, init, longer, s')
  {
    RunOneMore(cfg, init, events, e);
    longer, s' := events + [e], Next(cfg, s, e).value;
  }

  /** An answer that declares a length. */
  predicate Declares(e: Event) {
    e.Answer? && e.reply.Content? && e.reply.declared > 0
  }

  /** `longer` continues `events` without a declared length. */
  predicate Quietly(events: seq<Event>, longer: seq<Event>) {
    events <= longer && forall l :: |events| <= l < |longer| ==> !Declares(longer[l])
  }

  /** A lone request for a path nobody is filling reaches the upstream. */
  lemma TakeTheLead(cfg: Config, init: State, before: seq<Event>, s: State, r: ReqId, path: Path)
      returns (events: seq<Event>, s': State)
    requires At(cfg, init, before, s) && r !in s.requests && path !in s.store.inflight
    ensures At(cfg, init, events, s') && s'.history == s.history && s'.store == Claim(s.store, path, r).0
    ensures s'.requests == s.requests[r := Request(path, |Hist(s, path)|, Leading(Known(s.store, path)))]
    ensures s'.overruns == s.overruns && Quietly(before, events)
  {
    events, s' := Extend(cfg, init, before, s, Arrive(r, path));
    events, s' := Extend(cfg, init, events, s', Snapshot(r));
    events, s' := Extend(cfg, init, events, s', TakeLead(r));
  }

  /** A body delivered in one chunk. */
  lemma OneChunk(body: Bytes)
    ensures Whole([Data(body)]) && Concat([Data(body)]) == body
  {
    assert [Data(body)][..0] == [];
  }

  /** The leader gets the current content with its digest as the tag, and keeps it. */
  lemma Fill(cfg: Config, init: State, before: seq<Event>, s: State, r: ReqId)
      returns (events: seq<Event>, s': State)
    requires At(cfg, init, before, s) && r in s.requests && s.requests[r].phase.Leading?
    requires var hist := Hist(s, s.requests[r].path); hist != [] && |hist[|hist| - 1]| <= cfg.maxBytes / 4
    ensures At(cfg, init, events, s') && s'.history == s.history && Quietly(before, events)
    ensures s'.requests.Keys == s.requests.Keys
    ensures forall x <- s.requests :: x != r ==> s'.requests[x] == s.requests[x]
    ensures s'.requests[r].phase.Done?
    ensures var hist := Hist(s, s.requests[r].path);
            s'.overruns == if hist[|hist| - 1] == [] then s.overruns else s.overruns + 1
    ensures var path := s.requests[r].path;
            var body := Hist(s, path)[|Hist(s, path)| - 1];
            s'.store == ReleaseLead(Publish(s.store, path, cfg.sha256(body), body, 0), path)
  {
    var hist := Hist(s, s.requests[r].path);
    var tag := Some(cfg.sha256(hist[|hist| - 1]));
    events, s' := Extend(cfg, init, before, s, Answer(r, Content(tag, 0)));
    events, s' := Extend(cfg, init, events, s', Admit(r, []));
    OneChunk(hist[|hist| - 1]);
    events, s' := Extend(cfg, init, events, s', Finish(r, [Data(hist[|hist| - 1])], 0));
    events, s' := Extend(cfg, init, events, s', Release(r));
  }

  /** The leader is answered 304 and pins the first known digest. */
  lemma PinKnown(cfg: Config, init: State, before: seq<Event>, s: State, r: ReqId)
      returns (events: seq<Event>, s': State)
    requires At(cfg, init, before, s) && r in s.requests && s.requests[r].phase.Leading?
    requires var q := s.requests[r];
             && q.phase.known != [] && q.phase.known[0] in s.store.blobs && Hist(s, q.path) != []
             && cfg.sha256(Hist(s, q.path)[|Hist(s, q.path)| - 1]) in Validators(q.phase.known)
    ensures At(cfg, init, events, s') && s'.history == s.history && s'.store.blobs == s.store.blobs
    ensures var q := s.requests[r];
            s'.requests == s.requests[r := q.(phase := Reading(q.phase.known[0], |Hist(s, q.path)| - 1))]
  {
    events, s' := Extend(cfg, init, before, s, Answer(r, NotModified));
    events, s' := Extend(cfg, init, events, s', PinFirst(r, Some(s.requests[r].phase.known[0]), 0));
  }

  /** The pinned digest goes to the client. */
  lemma ServePinned(cfg: Config, init: State, before: seq<Event>, s: State, r: ReqId)
      returns (events: seq<Event>, s': State)
    requires At(cfg, init, before, s) && r in s.requests && s.requests[r].phase.Reading?
    requires s.requests[r].phase.sha in s.store.blobs
    ensures At(cfg, init, events, s') && s'.history == s.history && r in s'.requests
    ensures var q := s.requests[r];
            s'.requests[r] == q.(phase := Done(Served(s.store.blobs[q.phase.sha], q.phase.answered), |Hist(s, q.path)|))
  {
    events, s' := Extend(cfg, init, before, s, Read(r));
    events, s' := Extend(cfg, init, events, s', Release(r));
  }

  /** A new upload, and a lone request that fetches and keeps it. */
  lemma UploadAndFill(cfg: Config, init: State, before: seq<Event>, s: State, r: ReqId, path: Path, body: Bytes)
      returns (events: seq<Event>, s': State)
    requires At(cfg, init, before, s) && r !in s.requests && path !in s.store.inflight && |body| <= cfg.maxBytes / 4
    requires Known(s.store, path) == [] || Known(s.store, path) == [Known(s.store, path)[0]] != [cfg.sha256(body)]
    requires cfg.sha256(body) !in s.store.blobs
    ensures At(cfg, init, events, s') && Hist(s', path) == Hist(s, path) + [body] && path !in s'.store.inflight
    ensures forall x :: x in s'.requests ==> x in s.requests || x == r
    ensures Known(s'.store, path) == [cfg.sha256(body)] + Known(s.store, path)
    ensures s'.store.blobs == s.store.blobs[cfg.sha256(body) := body]
  {
    events, s' := Extend(cfg, init, before, s, Upload(path, body));
    events, s' := TakeTheLead(cfg, init, events, s', r, path);
    events, s' := Fill(cfg, init, events, s', r);
    assert Without(Known(s.store, path), {cfg.sha256(body)}) == Known(s.store, path);
  }

  /** The upstream goes back to the older of two known contents, and a request is served the newer one. */
  lemma GoBack(cfg: Config, init: State, before: seq<Event>, s: State, r: ReqId, path: Path, a: Bytes, b: Bytes)
      returns (events: seq<Event>, s': State)
    requires At(cfg, init, before, s) && r !in s.requests && path !in s.store.inflight
    requires Known(s.store, path) == [cfg.sha256(b), cfg.sha256(a)]
    requires cfg.sha256(b) in s.store.blobs && s.store.blobs[cfg.sha256(b)] == b
    ensures At(cfg, init, events, s') && Hist(s', path) == Hist(s, path) + [a] && r in s'.requests
    ensures var n := |Hist(s, path)| + 1;
            s'.requests[r] == Request(path, n, Done(Served(b, n - 1), n))
  {
    events, s' := Extend(cfg, init, before, s, Upload(path, a));
    events, s' := TakeTheLead(cfg, init, events, s', r, path);
    assert Validators(Known(s.store, path))[1] == cfg.sha256(a);
    events, s' := PinKnown(cfg, init, events, s', r);
    events, s' := ServePinned(cfg, init, events, s', r);
  }

  /** From an empty cache, for every two contents that may be kept: A, B, A again, and a client is served B. */
  lemma ReturningContentIsServedStale(cfg: Config, init: State, path: Path, a: Bytes, b: Bytes)
      returns (events: seq<Event>)
    requires Init(cfg, init) && init.store.blobs == map[] && cfg.sha256(a) != cfg.sha256(b)
    requires |a| <= cfg.maxBytes / 4 && |b| <= cfg.maxBytes / 4
    ensures Run(cfg, init, events).Some?
    ensures var s := Run(cfg, init, events).value;
            && Hist(s, path) == [a, b, a] && 2 in s.requests
            && s.requests[2] == Request(path, 3, Done(Served(b, 2), 3))
  {
    var s := init;
    events := [];
    events, s := UploadAndFill(cfg, init, events, s, 0, path, a);
    events, s := UploadAndFill(cfg, init, events, s, 1, path, b);
    assert Known(s.store, path) == [cfg.sha256(b), cfg.sha256(a)];
    events, s := GoBack(cfg, init, events, s, 2, path, a, b);
  }
}
