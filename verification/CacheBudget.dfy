/**
 The byte budget under concurrency.  `reserve_space` promises room to each fill without
 setting it aside, so fills in progress together can exceed the budget, by a quarter of it
 for each fill beyond the first and for each publication larger than its declared length.
 */
module CacheBudget {
  import opened ArtifactStore
  import opened CacheProtocol
  import opened CacheSafety
  import opened CacheStale
  import opened Totals
  import opened Wrappers

  /** The room a fill in progress was promised. */
  function Promised(q: Request): nat {
    if q.phase.Filling? then q.phase.reserved else 0
  }

  /** The admitted fills that have not published yet. */
  function Outstanding(requests: map<ReqId, Request>): set<ReqId> {
    set r | r in requests && Promised(requests[r]) > 0
  }

  ghost predicate AtMostAlong(cfg: Config, s: State, events: seq<Event>, k: nat)
    decreases |events|
  {
    && |Outstanding(s.requests)| <= k
    && (events != [] && Next(cfg, s, events[0]).Some? ==>
          AtMostAlong(cfg, Next(cfg, s, events[0]).value, events[1..], k))
  }

  ghost function PromisedTotal(requests: map<ReqId, Request>): nat {
    Total(requests, Promised)
  }

  /**
   Each promise is at most a quarter of the budget; bytes and promises exceed it by a quarter per extra fill or
   overrun.
   */
  ghost predicate WithinBudget(cfg: Config, s: State, k: nat)
    requires k > 0
  {
    && (forall r <- s.requests :: Promised(s.requests[r]) <= cfg.maxBytes / 4)
    && s.store.bytesUsed + PromisedTotal(s.requests) <= cfg.maxBytes + Quarters(k - 1 + s.overruns, cfg.maxBytes / 4)
  }

  function Quarters(n: nat, quarter: nat): nat {
    n * quarter
  }

  lemma OneMoreQuarter(n: nat, quarter: nat)
    ensures Quarters(n + 1, quarter) == Quarters(n, quarter) + quarter
  {
    assert (n + 1) * quarter == n * quarter + quarter;
  }

  lemma {:induction false} MoreQuarters(few: nat, many: nat, quarter: nat)
    requires few <= many
    ensures Quarters(few, quarter) <= Quarters(many, quarter)
    decreases many - few
  {
    if few < many {
      OneMoreQuarter(few, quarter);
      MoreQuarters(few + 1, many, quarter);
    }
  }

  /** The promises sum to at most a bound for each outstanding fill. */
  lemma {:induction false} PromisesAreBounded(requests: map<ReqId, Request>, bound: nat)
    requires forall r <- requests :: Promised(requests[r]) <= bound
    ensures PromisedTotal(requests) <= Quarters(|Outstanding(requests)|, bound)
    decreases |requests|
  {
    if |requests| == 0 {
    } else {
      var r := PickKey(requests);
      var rest := requests - {r};
      PromisesAreBounded(rest, bound);
      TotalSplit(requests, Promised, r);
      if Promised(requests[r]) > 0 {
        assert Outstanding(requests) == Outstanding(rest) + {r};
        OneMoreQuarter(|Outstanding(rest)|, bound);
      } else {
        assert Outstanding(requests) == Outstanding(rest);
      }
    }
  }

  lemma PromiseMoves(requests: map<ReqId, Request>, r: ReqId, q: Request)
    requires r in requests ==> Promised(requests[r]) >= Promised(q)
    requires r !in requests ==> Promised(q) == 0
    ensures PromisedTotal(requests[r := q]) + (if r in requests then Promised(requests[r]) else 0)
         == PromisedTotal(requests) + Promised(q)
  {
    if r in requests { TotalReplace(requests, Promised, r, q); } else { TotalAdd(requests, Promised, r, q); }
  }

  /** A step that promises nothing new and stores nothing. */
  lemma NothingNewStaysWithin(cfg: Config, s: State, s': State, k: nat, r: ReqId, q: Request)
    requires k > 0 && WithinBudget(cfg, s, k) && s'.requests == s.requests[r := q]
    requires if r in s.requests then Promised(q) <= Promised(s.requests[r]) else Promised(q) == 0
    requires s'.store.bytesUsed <= s.store.bytesUsed && s'.overruns == s.overruns
    ensures WithinBudget(cfg, s', k)
  {
    PromiseMoves(s.requests, r, q);
  }

  lemma OthersArePromisedLess(requests: map<ReqId, Request>, r: ReqId, k: nat, bound: nat)
    requires k > 0 && r in requests && Promised(requests[r]) > 0 && |Outstanding(requests)| <= k
    requires forall x <- requests :: Promised(requests[x]) <= bound
    ensures PromisedTotal(requests) <= Promised(requests[r]) + Quarters(k - 1, bound)
  {
    var others := requests - {r};
    assert Outstanding(requests) == Outstanding(others) + {r};
    PromisesAreBounded(others, bound);
    MoreQuarters(|Outstanding(others)|, k - 1, bound);
    TotalSplit(requests, Promised, r);
  }

  /** A new promise, made when bytes and promise fit: the others are at most `k - 1` quarters. */
  lemma NewPromiseStaysWithin(cfg: Config, s: State, s': State, k: nat, r: ReqId, q: Request)
    requires k > 0 && s'.requests == s.requests[r := q]
    requires forall x <- s.requests :: Promised(s.requests[x]) <= cfg.maxBytes / 4
    requires 0 < Promised(q) <= cfg.maxBytes / 4 && s'.store.bytesUsed + Promised(q) <= cfg.maxBytes
    requires |Outstanding(s'.requests)| <= k
    ensures WithinBudget(cfg, s', k)
  {
    OthersArePromisedLess(s'.requests, r, k, cfg.maxBytes / 4);
    MoreQuarters(k - 1, k - 1 + s'.overruns, cfg.maxBytes / 4);
  }

  lemma AdmissionStaysWithin(cfg: Config, s: State, k: nat, r: ReqId, order: seq<Digest>)
    requires k > 0 && WithinBudget(cfg, s, k)
    requires r in s.requests && s.requests[r].phase.Admitting? && AdmitStep(cfg, s, r, order).Some?
    requires |Outstanding(AdmitStep(cfg, s, r, order).value.requests)| <= k
    ensures WithinBudget(cfg, AdmitStep(cfg, s, r, order).value, k)
  {
    var s' := AdmitStep(cfg, s, r, order).value;
    var needed := s.requests[r].phase.declared;
    ReserveKeepsLeads(s.store, order, needed, cfg.maxBytes);
    if needed > 0 && Reserve(s.store, order, needed, cfg.maxBytes).1 {
      RoomWasFound(s.store, order, needed, cfg.maxBytes);
      NewPromiseStaysWithin(cfg, s, s', k, r, s'.requests[r]);
    } else {
      NothingNewStaysWithin(cfg, s, s', k, r, s'.requests[r]);
    }
  }

  lemma RoomWasFound(s: Store, order: seq<Digest>, needed: nat, max: nat)
    requires Reserve(s, order, needed, max).1
    ensures needed <= max / 4 && Reserve(s, order, needed, max).0.bytesUsed + needed <= max
  {
  }

  lemma FinishStaysWithin(cfg: Config, s: State, k: nat, r: ReqId, chunks: seq<Chunk>, now: Instant)
    requires k > 0 && WithinBudget(cfg, s, k) && r in s.requests && s.requests[r].phase.Filling?
    ensures WithinBudget(cfg, FinishStep(cfg, s, r, chunks, now), k)
  {
    var s' := FinishStep(cfg, s, r, chunks, now);
    PromiseMoves(s.requests, r, s'.requests[r]);
    OneMoreQuarter(k - 1 + s.overruns, cfg.maxBytes / 4);
  }

  lemma OtherStepsStayWithin(cfg: Config, s: State, e: Event, k: nat)
    requires k > 0 && WithinBudget(cfg, s, k) && Next(cfg, s, e).Some?
    requires !e.Upload? && !e.Admit? && !e.Finish?
    ensures WithinBudget(cfg, Next(cfg, s, e).value, k)
  {
    var s' := Next(cfg, s, e).value;
    NothingNewStaysWithin(cfg, s, s', k, e.r, s'.requests[e.r]);
  }

  lemma BudgetStep(cfg: Config, s: State, e: Event, k: nat)
    requires k > 0 && WithinBudget(cfg, s, k) && Next(cfg, s, e).Some?
    requires |Outstanding(Next(cfg, s, e).value.requests)| <= k
    ensures WithinBudget(cfg, Next(cfg, s, e).value, k)
  {
    match e
    case Upload(_, _) =>
    case Admit(r, order) => AdmissionStaysWithin(cfg, s, k, r, order);
    case Finish(r, chunks, now) => FinishStaysWithin(cfg, s, k, r, chunks, now);
    case _ => OtherStepsStayWithin(cfg, s, e, k);
  }

  lemma {:induction false} BudgetRun(cfg: Config, s: State, events: seq<Event>, k: nat)
    requires k > 0 && WithinBudget(cfg, s, k) && AtMostAlong(cfg, s, events, k)
    requires Run(cfg, s, events).Some?
    ensures WithinBudget(cfg, Run(cfg, s, events).value, k)
    decreases |events|
  {
    if events == [] {
    } else {
      BudgetStep(cfg, s, events[0], k);
      BudgetRun(cfg, Next(cfg, s, events[0]).value, events[1..], k);
    }
  }

  lemma EmptyIsWithin(cfg: Config, s: State, k: nat)
    requires k > 0 && s.requests == map[] && s.store.bytesUsed <= cfg.maxBytes
    ensures WithinBudget(cfg, s, k)
  {
  }

  /**
   Main result: in every interleaving with at most `k` admitted fills outstanding, cached bytes and promised
   bytes stay within the budget and a quarter of it for each fill beyond the first, and for each publication
   larger than declared since the last successful reservation.
   */
  lemma BudgetUnderConcurrency(cfg: Config, init: State, events: seq<Event>, k: nat)
    requires k > 0 && Init(cfg, init) && init.store.bytesUsed <= cfg.maxBytes
    requires AtMostAlong(cfg, init, events, k) && Run(cfg, init, events).Some?
    ensures var s := Run(cfg, init, events).value;
            s.store.bytesUsed + PromisedTotal(s.requests)
            <= cfg.maxBytes + Quarters(k - 1 + s.overruns, cfg.maxBytes / 4)
  {
    EmptyIsWithin(cfg, init, k);
    BudgetRun(cfg, init, events, k);
  }

  /** One fill at a time, each with an honest length, never exceeds the budget. */
  lemma OneAtATimeKeepsTheBudget(cfg: Config, init: State, events: seq<Event>)
    requires Init(cfg, init) && init.store.bytesUsed <= cfg.maxBytes
    requires AtMostAlong(cfg, init, events, 1) && Run(cfg, init, events).Some?
    requires Run(cfg, init, events).value.overruns == 0
    ensures Run(cfg, init, events).value.store.bytesUsed <= cfg.maxBytes
  {
    BudgetUnderConcurrency(cfg, init, events, 1);
  }

  // ---------------------------------------------------------------- the bound is reached

  lemma StartFill(cfg: Config, init: State, before: seq<Event>, s: State, r: ReqId, path: Path, body: Bytes,
                  order: seq<Digest>)
      returns (events: seq<Event>, s': State)
    requires At(cfg, init, before, s) && r !in s.requests && path !in s.store.inflight
    requires Hist(s, path) == [] && 0 < |body| <= cfg.maxBytes / 4 && s.store.bytesUsed + |body| <= cfg.maxBytes
    requires LruOrder(order, s.store.lastUsed)
    ensures At(cfg, init, events, s') && s'.overruns == 0 && s'.history == s.history[path := [body]]
    ensures s'.store == Claim(s.store, path, r).0
    ensures s'.requests == s.requests[r := Request(path, 1, Filling(body, Some(cfg.sha256(body)), |body|, 0))]
  {
    events, s' := Extend(cfg, init, before, s, Upload(path, body));
    assert Hist(s', path) == [body];
    events, s' := TakeTheLead(cfg, init, events, s', r, path);
    events, s' := Extend(cfg, init, events, s', Answer(r, Content(Some(cfg.sha256(body)), |body|)));
    events, s' := Extend(cfg, init, events, s', Admit(r, order));
  }

  lemma StoreFill(cfg: Config, init: State, before: seq<Event>, s: State, r: ReqId, body: Bytes)
      returns (events: seq<Event>, s': State)
    requires At(cfg, init, before, s) && r in s.requests && 0 < |body| <= cfg.maxBytes / 4
    requires s.requests[r].phase == Filling(body, Some(cfg.sha256(body)), |body|, 0)
    requires cfg.sha256(body) !in s.store.blobs
    ensures At(cfg, init, events, s') && s'.overruns == s.overruns
    ensures s'.store.bytesUsed == s.store.bytesUsed + |body|
    ensures s'.store.blobs == s.store.blobs[cfg.sha256(body) := body]
    ensures s'.history == s.history && s'.store.inflight == s.store.inflight && s'.requests.Keys == s.requests.Keys
    ensures s'.requests[r].phase.Releasing? && forall x <- s.requests :: x != r ==> s'.requests[x] == s.requests[x]
  {
    OneChunk(body);
    assert FillBody(cfg.sha256, cfg.maxBytes, Some(cfg.sha256(body)), [Data(body)]) == Stored(body);
    events, s' := Extend(cfg, init, before, s, Finish(r, [Data(body)], 0));
  }

  /** Distinct paths, and distinct bodies of a quarter of the budget that the store does not hold. */
  predicate QuarterFills(cfg: Config, blobs: map<Digest, Bytes>, paths: seq<Path>, bodies: seq<Bytes>) {
    && |paths| == |bodies|
    && (forall i, j :: 0 <= i < j < |paths| ==> paths[i] != paths[j])
    && (forall i :: 0 <= i < |bodies| ==> |bodies[i]| == cfg.maxBytes / 4 && cfg.sha256(bodies[i]) !in blobs)
    && (forall i, j :: 0 <= i < j < |bodies| ==> cfg.sha256(bodies[i]) != cfg.sha256(bodies[j]))
  }

  /** Request `i` was admitted with an honest length and has its whole body to publish. */
  predicate Admitted(cfg: Config, s: State, i: ReqId, body: Bytes) {
    i in s.requests && s.requests[i].phase == Filling(body, Some(cfg.sha256(body)), |body|, 0)
  }

  /** The requests are the first `n` fills, admitted. */
  ghost predicate AllAdmitted(cfg: Config, s: State, bodies: seq<Bytes>, n: nat)
    requires n <= |bodies|
  {
    && |s.requests| == n && (forall r: ReqId :: r in s.requests <==> r < n)
    && (forall i :: 0 <= i < n ==> Admitted(cfg, s, i, bodies[i]))
  }

  /** The paths from `n` on are as they were at the start. */
  ghost predicate Untouched(s: State, paths: seq<Path>, n: nat) {
    forall i :: n <= i < |paths| ==> paths[i] !in s.store.inflight && Hist(s, paths[i]) == []
  }

  lemma OneMoreAdmitted(cfg: Config, s: State, s': State, path: Path, bodies: seq<Bytes>, n: nat)
    requires n < |bodies| && AllAdmitted(cfg, s, bodies, n)
    requires var filling := Filling(bodies[n], Some(cfg.sha256(bodies[n])), |bodies[n]|, 0);
             s'.requests == s.requests[n := Request(path, 1, filling)]
    ensures AllAdmitted(cfg, s', bodies, n + 1)
  {
    assert s'.requests.Keys == s.requests.Keys + {n};
    forall i | 0 <= i < n + 1 ensures Admitted(cfg, s', i, bodies[i]) {
      assert i < n ==> Admitted(cfg, s, i, bodies[i]);
    }
  }

  lemma OneLessUntouched(s: State, s': State, paths: seq<Path>, body: Bytes, n: nat)
    requires (forall i, j :: 0 <= i < j < |paths| ==> paths[i] != paths[j]) && n < |paths| && Untouched(s, paths, n)
    requires s'.history == s.history[paths[n] := [body]] && s'.store.inflight == s.store.inflight[paths[n] := n]
    ensures Untouched(s', paths, n + 1)
  {
    forall i | n + 1 <= i < |paths| ensures paths[i] !in s'.store.inflight && Hist(s', paths[i]) == [] {
      assert paths[i] != paths[n] && paths[i] !in s.store.inflight && Hist(s, paths[i]) == [];
    }
  }

  lemma {:induction false} StartMany(cfg: Config, init: State, paths: seq<Path>, bodies: seq<Bytes>,
                                     order: seq<Digest>, n: nat)
      returns (events: seq<Event>, s: State)
    requires Init(cfg, init) && init.store.bytesUsed + cfg.maxBytes / 4 == cfg.maxBytes >= 4
    requires QuarterFills(cfg, init.store.blobs, paths, bodies) && n <= |paths| && LruOrder(order, init.store.lastUsed)
    ensures At(cfg, init, events, s) && s.overruns == 0 && s.store == init.store.(inflight := s.store.inflight)
    ensures AllAdmitted(cfg, s, bodies, n) && Untouched(s, paths, n)
  {
    if n == 0 {
      events, s := [], init;
    } else {
      var before, s0 := StartMany(cfg, init, paths, bodies, order, n - 1);
      events, s := StartFill(cfg, init, before, s0, n - 1, paths[n - 1], bodies[n - 1], order);
      OneMoreAdmitted(cfg, s0, s, paths[n - 1], bodies, n - 1);
      OneLessUntouched(s0, s, paths, bodies[n - 1], n - 1);
    }
  }

  /** Of the first `k` requests the first `n` have published, the others are still admitted. */
  ghost predicate Published(cfg: Config, s: State, bodies: seq<Bytes>, n: nat, k: nat)
    requires k <= |bodies|
  {
    && (forall i :: n <= i < k ==> Admitted(cfg, s, i, bodies[i]))
    && (forall r <- s.requests :: !s.requests[r].phase.Admitting?)
    && (forall i :: n <= i < |bodies| ==> cfg.sha256(bodies[i]) !in s.store.blobs)
  }

  lemma AdmittedAreUnpublished(cfg: Config, s: State, bodies: seq<Bytes>, k: nat)
    requires k <= |bodies| && AllAdmitted(cfg, s, bodies, k)
    requires forall i :: 0 <= i < |bodies| ==> cfg.sha256(bodies[i]) !in s.store.blobs
    ensures Published(cfg, s, bodies, 0, k)
  {
    forall r | r in s.requests ensures !s.requests[r].phase.Admitting? {
      assert Admitted(cfg, s, r, bodies[r]);
    }
  }

  lemma OneMorePublished(cfg: Config, s: State, s': State, bodies: seq<Bytes>, n: nat, k: nat)
    requires n < k <= |bodies| && Published(cfg, s, bodies, n, k)
    requires forall i, j :: 0 <= i < j < |bodies| ==> cfg.sha256(bodies[i]) != cfg.sha256(bodies[j])
    requires s'.store.blobs == s.store.blobs[cfg.sha256(bodies[n]) := bodies[n]] && s'.requests.Keys == s.requests.Keys
    requires n in s'.requests && s'.requests[n].phase.Releasing?
    requires forall x <- s.requests :: x != n ==> s'.requests[x] == s.requests[x]
    ensures Published(cfg, s', bodies, n + 1, k)
  {
    forall i | n + 1 <= i < k ensures Admitted(cfg, s', i, bodies[i]) {
      assert Admitted(cfg, s, i, bodies[i]);
    }
  }

  lemma {:induction false} StoreMany(cfg: Config, init: State, before: seq<Event>, s0: State, bodies: seq<Bytes>,
                                     n: nat, k: nat)
      returns (events: seq<Event>, s: State)
    requires At(cfg, init, before, s0) && cfg.maxBytes >= 4 && n <= k <= |bodies| && Published(cfg, s0, bodies, 0, k)
    requires forall i :: 0 <= i < |bodies| ==> |bodies[i]| == cfg.maxBytes / 4
    requires forall i, j :: 0 <= i < j < |bodies| ==> cfg.sha256(bodies[i]) != cfg.sha256(bodies[j])
    ensures At(cfg, init, events, s) && s.overruns == s0.overruns && s.requests.Keys == s0.requests.Keys
    ensures s.history == s0.history && s.store.inflight == s0.store.inflight
    ensures s.store.bytesUsed == s0.store.bytesUsed + Quarters(n, cfg.maxBytes / 4) && Published(cfg, s, bodies, n, k)
  {
    if n == 0 {
      events, s := before, s0;
    } else {
      var longer, s1 := StoreMany(cfg, init, before, s0, bodies, n - 1, k);
      assert Admitted(cfg, s1, n - 1, bodies[n - 1]);
      events, s := StoreFill(cfg, init, longer, s1, n - 1, bodies[n - 1]);
      OneMoreQuarter(n - 1, cfg.maxBytes / 4);
      OneMorePublished(cfg, s1, s, bodies, n - 1, k);
    }
  }

  // ---------------------------------------------------------------- lengths that are not declared

  /** A lone fill of undeclared length: nothing is promised, and the whole body is an overrun. */
  lemma UndeclaredFill(cfg: Config, init: State, before: seq<Event>, s: State, r: ReqId, path: Path, body: Bytes)
      returns (events: seq<Event>, s': State)
    requires At(cfg, init, before, s) && r !in s.requests && path !in s.store.inflight
    requires 0 < |body| <= cfg.maxBytes / 4 && cfg.sha256(body) !in s.store.blobs
    ensures At(cfg, init, events, s') && Quietly(before, events) && s'.overruns == s.overruns + 1
    ensures s'.store.bytesUsed == s.store.bytesUsed + |body|
    ensures s'.store.blobs == s.store.blobs[cfg.sha256(body) := body]
    ensures s'.store.inflight == s.store.inflight && s'.history == s.history[path := Hist(s, path) + [body]]
    ensures s'.requests.Keys == s.requests.Keys + {r}
  {
    events, s' := Extend(cfg, init, before, s, Upload(path, body));
    events, s' := TakeTheLead(cfg, init, events, s', r, path);
    events, s' := Fill(cfg, init, events, s', r);
    assert s.store.inflight[path := r] - {path} == s.store.inflight;
  }

  /** The requests from `n` on, with their paths and bodies, are still to come. */
  ghost predicate ToCome(cfg: Config, s: State, paths: seq<Path>, bodies: seq<Bytes>, n: nat) {
    && |paths| == |bodies| && Untouched(s, paths, n)
    && (forall r: ReqId :: r in s.requests <==> r < n)
    && (forall i :: n <= i < |bodies| ==> cfg.sha256(bodies[i]) !in s.store.blobs)
  }

  lemma OneCame(cfg: Config, s: State, s': State, paths: seq<Path>, bodies: seq<Bytes>, n: nat)
    requires n < |paths| && ToCome(cfg, s, paths, bodies, n)
    requires forall i, j :: 0 <= i < j < |paths| ==> paths[i] != paths[j]
    requires forall i, j :: 0 <= i < j < |bodies| ==> cfg.sha256(bodies[i]) != cfg.sha256(bodies[j])
    requires s'.store.blobs == s.store.blobs[cfg.sha256(bodies[n]) := bodies[n]]
    requires s'.requests.Keys == s.requests.Keys + {n}
    requires s'.store.inflight == s.store.inflight
    requires s'.history == s.history[paths[n] := Hist(s, paths[n]) + [bodies[n]]]
    ensures ToCome(cfg, s', paths, bodies, n + 1)
  {
    forall i | n + 1 <= i < |paths| ensures paths[i] !in s'.store.inflight && Hist(s', paths[i]) == [] {
      assert paths[i] != paths[n] && paths[i] !in s.store.inflight && Hist(s, paths[i]) == [];
    }
    forall r: ReqId ensures r in s'.requests <==> r < n + 1 {
      assert r in s'.requests <==> r in s.requests || r == n;
    }
  }

  /** All that are still to come, undeclared: a quarter and an overrun each. */
  lemma {:induction false} UndeclaredMany(cfg: Config, init: State, before: seq<Event>, s: State, paths: seq<Path>,
                                          bodies: seq<Bytes>, n: nat)
      returns (events: seq<Event>, s': State)
    requires At(cfg, init, before, s) && cfg.maxBytes >= 4 && n <= |paths| && ToCome(cfg, s, paths, bodies, n)
    requires forall i, j :: 0 <= i < j < |paths| ==> paths[i] != paths[j]
    requires forall i :: 0 <= i < |bodies| ==> |bodies[i]| == cfg.maxBytes / 4
    requires forall i, j :: 0 <= i < j < |bodies| ==> cfg.sha256(bodies[i]) != cfg.sha256(bodies[j])
    ensures At(cfg, init, events, s') && Quietly(before, events) && s'.overruns == s.overruns + (|paths| - n)
    ensures s'.store.bytesUsed == s.store.bytesUsed + Quarters(|paths| - n, cfg.maxBytes / 4)
    decreases |paths| - n
  {
    if n == |paths| {
      events, s' := before, s;
    } else {
      events, s' := UndeclaredFill(cfg, init, before, s, n, paths[n], bodies[n]);
      OneCame(cfg, s, s', paths, bodies, n);
      var longer := events;
      events, s' := UndeclaredMany(cfg, init, longer, s', paths, bodies, n + 1);
      OneMoreQuarter(|paths| - n - 1, cfg.maxBytes / 4);
    }
  }

  lemma {:induction false} RunOn(cfg: Config, s: State, first: seq<Event>, more: seq<Event>)
    requires Run(cfg, s, first).Some?
    ensures Run(cfg, s, first + more) == Run(cfg, Run(cfg, s, first).value, more)
    decreases |first|
  {
    if first == [] {
      assert first + more == more;
    } else {
      assert (first + more)[1..] == first[1..] + more;
      RunOn(cfg, Next(cfg, s, first[0]).value, first[1..], more);
    }
  }

  lemma {:induction false} AtMostOn(cfg: Config, s: State, first: seq<Event>, more: seq<Event>, k: nat)
    requires Run(cfg, s, first).Some?
    requires AtMostAlong(cfg, s, first, k) && AtMostAlong(cfg, Run(cfg, s, first).value, more, k)
    ensures AtMostAlong(cfg, s, first + more, k)
    decreases |first|
  {
    if first == [] {
      assert first + more == more;
    } else {
      assert (first + more)[1..] == first[1..] + more;
      AtMostOn(cfg, Next(cfg, s, first[0]).value, first[1..], more, k);
    }
  }

  /** No request waits for room. */
  ghost predicate NobodyDeclared(s: State) {
    forall r <- s.requests :: s.requests[r].phase.Admitting? ==> s.requests[r].phase.declared == 0
  }

  lemma MoverOnly(cfg: Config, s: State, e: Event)
    requires Next(cfg, s, e).Some? && !e.Upload?
    ensures e.r in Next(cfg, s, e).value.requests
    ensures Next(cfg, s, e).value.requests == s.requests[e.r := Next(cfg, s, e).value.requests[e.r]]
  {
  }

  lemma QuietMover(cfg: Config, s: State, e: Event)
    requires NobodyDeclared(s) && Next(cfg, s, e).Some? && !e.Upload? && !Declares(e)
    ensures var s' := Next(cfg, s, e).value;
            && e.r in s'.requests
            && (s'.requests[e.r].phase.Admitting? ==> s'.requests[e.r].phase.declared == 0)
            && Promised(s'.requests[e.r]) == 0
  {
    assert e.r in s.requests && s.requests[e.r].phase.Admitting? ==> s.requests[e.r].phase.declared == 0;
  }

  lemma QuietStep(cfg: Config, s: State, e: Event)
    requires NobodyDeclared(s) && Next(cfg, s, e).Some? && !Declares(e)
    ensures NobodyDeclared(Next(cfg, s, e).value)
    ensures Outstanding(Next(cfg, s, e).value.requests) <= Outstanding(s.requests)
  {
    if !e.Upload? {
      MoverOnly(cfg, s, e);
      QuietMover(cfg, s, e);
    }
  }

  /** Without declared lengths no fill becomes outstanding. */
  lemma {:induction false} QuietRun(cfg: Config, s: State, events: seq<Event>, k: nat)
    requires NobodyDeclared(s) && |Outstanding(s.requests)| <= k && Run(cfg, s, events).Some?
    requires forall l :: 0 <= l < |events| ==> !Declares(events[l])
    ensures AtMostAlong(cfg, s, events, k)
    decreases |events|
  {
    if events == [] {
    } else {
      var s' := Next(cfg, s, events[0]).value;
      QuietStep(cfg, s, events[0]);
      assert Outstanding(s.requests) == Outstanding(s'.requests) + (Outstanding(s.requests) - Outstanding(s'.requests));
      QuietRun(cfg, s', events[1..], k);
    }
  }

  lemma NoMoreOutstandingThanRequests(few: map<ReqId, Request>, many: set<ReqId>)
    requires few.Keys <= many
    ensures |Outstanding(few)| <= |many|
  {
    var outstanding := Outstanding(few);
    assert many == outstanding + (many - outstanding);
  }

  lemma RequestsStay(cfg: Config, s: State, e: Event)
    requires Next(cfg, s, e).Some?
    ensures s.requests.Keys <= Next(cfg, s, e).value.requests.Keys
  {
  }

  /** Requests are never forgotten, so a run never has more fills outstanding than requests at its end. */
  lemma {:induction false} AtMostTheRequests(cfg: Config, s: State, events: seq<Event>)
    requires Run(cfg, s, events).Some?
    ensures s.requests.Keys <= Run(cfg, s, events).value.requests.Keys
    ensures AtMostAlong(cfg, s, events, |Run(cfg, s, events).value.requests.Keys|)
    decreases |events|
  {
    if events == [] {
    } else {
      RequestsStay(cfg, s, events[0]);
      AtMostTheRequests(cfg, Next(cfg, s, events[0]).value, events[1..]);
    }
    NoMoreOutstandingThanRequests(s.requests, Run(cfg, s, events).value.requests.Keys);
  }

  lemma QuietContinuation(cfg: Config, init: State, events: seq<Event>, s: State, longer: seq<Event>, k: nat)
    requires At(cfg, init, events, s) && AtMostAlong(cfg, init, events, k)
    requires NobodyDeclared(s) && |Outstanding(s.requests)| <= k
    requires Quietly(events, longer) && Run(cfg, init, longer).Some?
    ensures AtMostAlong(cfg, init, longer, k)
  {
    var more := longer[|events|..];
    assert longer == events + more;
    RunOn(cfg, init, events, more);
    QuietRun(cfg, s, more, k);
    AtMostOn(cfg, init, events, more, k);
  }

  /** `k` fills admitted together and published. */
  lemma HonestFills(cfg: Config, init: State, paths: seq<Path>, bodies: seq<Bytes>, order: seq<Digest>, k: nat)
      returns (events: seq<Event>, s: State)
    requires Init(cfg, init) && init.store.bytesUsed + cfg.maxBytes / 4 == cfg.maxBytes >= 4
    requires 0 < k <= |paths| && QuarterFills(cfg, init.store.blobs, paths, bodies)
    requires LruOrder(order, init.store.lastUsed)
    ensures At(cfg, init, events, s) && s.overruns == 0 && AtMostAlong(cfg, init, events, k)
    ensures s.store.bytesUsed == cfg.maxBytes + Quarters(k - 1, cfg.maxBytes / 4)
    ensures ToCome(cfg, s, paths, bodies, k) && NobodyDeclared(s) && |Outstanding(s.requests)| <= k
  {
    var started, s0 := StartMany(cfg, init, paths, bodies, order, k);
    AdmittedAreUnpublished(cfg, s0, bodies, k);
    events, s := StoreMany(cfg, init, started, s0, bodies, k, k);
    OneMoreQuarter(k - 1, cfg.maxBytes / 4);
    AtMostTheRequests(cfg, init, events);
    assert |s.requests.Keys| == |s0.requests.Keys| == |s0.requests| == k;
    NoMoreOutstandingThanRequests(s.requests, s.requests.Keys);
  }

  /**
   The bound is reached for every number of fills and of overruns: `k` fills admitted together with honest
   lengths, and then the others with none declared, end at the bound.
   */
  lemma BudgetBoundIsTight(cfg: Config, init: State, paths: seq<Path>, bodies: seq<Bytes>, order: seq<Digest>, k: nat)
      returns (events: seq<Event>)
    requires Init(cfg, init) && init.store.bytesUsed + cfg.maxBytes / 4 == cfg.maxBytes >= 4
    requires 0 < k <= |paths| && QuarterFills(cfg, init.store.blobs, paths, bodies)
    requires LruOrder(order, init.store.lastUsed)
    ensures Run(cfg, init, events).Some? && AtMostAlong(cfg, init, events, k)
    ensures var s := Run(cfg, init, events).value;
            && s.overruns == |paths| - k
            && s.store.bytesUsed == cfg.maxBytes + Quarters(k - 1 + s.overruns, cfg.maxBytes / 4)
  {
    var honest, s := HonestFills(cfg, init, paths, bodies, order, k);
    var s';
    events, s' := UndeclaredMany(cfg, init, honest, s, paths, bodies, k);
    QuietContinuation(cfg, init, honest, s, events, k);
    AddQuarters(k - 1, |paths| - k, cfg.maxBytes / 4);
  }

  lemma AddQuarters(m: nat, n: nat, quarter: nat)
    ensures Quarters(m + n, quarter) == Quarters(m, quarter) + Quarters(n, quarter)
  {
    assert (m + n) * quarter == m * quarter + n * quarter;
  }
}
