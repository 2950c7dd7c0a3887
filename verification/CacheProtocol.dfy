/**
 Every interleaving of requests through the artifact cache.  A state is the store, the
 requests in progress and the upstream content of each path as a history of versions; a
 step is one atomic piece of one request, or an upstream publication.

 Granularity: reading the known digests, taking the lead, the upstream answer,
 `reserve_space`, publishing, pinning, reading with unpinning, and dropping the lead are
 one step each.
 */
module CacheProtocol {
  import opened ArtifactStore
  import opened Totals
  import opened Wrappers

  datatype Config = Config(maxBytes: nat, sha256: Bytes -> Digest)

  /** `answered` in a phase is the version the upstream held when it answered; no step depends on it. */
  datatype Outcome =
    | Served(body: Bytes, answered: nat)  // a 200
    | Relayed                             // another status, handed on
    | Failed                              // no upstream answer, or a body that broke or did not match
    | BlobMissing                         // the 503 after a 304 without a blob
    | FillInProgress                      // the 503 of a follower that waited too long

  datatype Phase =
    | Waiting                                       // a follower, on the leader's notification
    | Probing                                       // about to read the known digests
    | Snapshotted(known: seq<Digest>)
    | Leading(known: seq<Digest>)                   // request sent upstream
    | Revalidated(known: seq<Digest>, answered: nat)  // got a 304
    | Admitting(body: Bytes, etag: Option<Digest>, declared: nat, answered: nat)
    | Filling(body: Bytes, etag: Option<Digest>, reserved: nat, answered: nat)
    | Reading(sha: Digest, answered: nat)           // pinned
    | Releasing(outcome: Outcome)
    | Direct                                        // fell through to plain forwarding
    | Done(outcome: Outcome, finished: nat)         // versions held upstream by then

  type ReqId = Token

  /** `arrived` counts the versions the upstream had held when the request came in. */
  datatype Request = Request(path: Path, arrived: nat, phase: Phase)

  /**
   `overruns` counts publications larger than their reservation since the last successful reservation; no step depends
   on it.
   */
  datatype State = State(
    store: Store,
    requests: map<ReqId, Request>,
    history: map<Path, seq<Bytes>>,
    overruns: nat)

  datatype Reply =
    | NoReply
    | Refusal
    | NotModified
    | Content(etag: Option<Digest>, declared: nat)

  datatype Event =
    | Upload(path: Path, content: Bytes)            // the upstream replaces the content of a path
    | Arrive(r: ReqId, path: Path)
    | Wake(r: ReqId)
    | TimeOut(r: ReqId)
    | Snapshot(r: ReqId)
    | TakeLead(r: ReqId)
    | Answer(r: ReqId, reply: Reply)
    | Admit(r: ReqId, order: seq<Digest>)
    | Finish(r: ReqId, chunks: seq<Chunk>, now: Instant)        // the body as it was delivered
    | PinFirst(r: ReqId, first: Option<Digest>, now: Instant)   // the first known digest, looked up
    | Read(r: ReqId)
    | Release(r: ReqId)
    | AnswerDirect(r: ReqId, reply: Reply)

  function Hist(s: State, path: Path): seq<Bytes> {
    if path in s.history then s.history[path] else []
  }

  /** The validators of the conditional request: at most eight of the known digests. */
  function Validators(known: seq<Digest>): seq<Digest> {
    if |known| <= MAX_IF_NONE_MATCH then known else known[..MAX_IF_NONE_MATCH]
  }

  function To(s: State, r: ReqId, phase: Phase): State
    requires r in s.requests
  {
    s.(requests := s.requests[r := s.requests[r].(phase := phase)])
  }

  predicate Leads(p: Phase) {
    p.Leading? || p.Revalidated? || p.Admitting? || p.Filling? || p.Reading? || p.Releasing?
  }

  // ---------------------------------------------------------------- the steps

  /**
   The upstream's answer to a leader; a 304 only if it holds one of the validators, or the client's own went through.
   */
  function AnswerStep(cfg: Config, s: State, r: ReqId, reply: Reply): Option<State>
    requires r in s.requests && s.requests[r].phase.Leading?
  {
    var q := s.requests[r];
    var hist, known := Hist(s, q.path), q.phase.known;
    match reply
    case NoReply => Some(To(s, r, Releasing(Failed)))
    case Refusal => Some(To(s, r, Releasing(Relayed)))
    case NotModified =>
      if hist != [] && (known == [] || cfg.sha256(hist[|hist| - 1]) in Validators(known))
      then Some(To(s, r, Revalidated(known, |hist| - 1))) else None
    case Content(etag, declared) =>
      if hist != [] then Some(To(s, r, Admitting(hist[|hist| - 1], etag, declared, |hist| - 1))) else None
  }

  ghost function AdmitStep(cfg: Config, s: State, r: ReqId, order: seq<Digest>): Option<State>
    requires r in s.requests && s.requests[r].phase.Admitting?
  {
    var p := s.requests[r].phase;
    if p.declared == 0 then Some(To(s, r, Filling(p.body, p.etag, 0, p.answered)))
    else if !LruOrder(order, s.store.lastUsed) then None
    else
      var (store', room) := Reserve(s.store, order, p.declared, cfg.maxBytes);
      if room then Some(To(s, r, Filling(p.body, p.etag, p.declared, p.answered)).(store := store', overruns := 0))
      else Some(To(s, r, Releasing(Served(p.body, p.answered))).(store := store'))
  }

  /** A stream that did not break delivered the content the upstream answered with. */
  predicate Delivers(chunks: seq<Chunk>, content: Bytes) {
    Whole(chunks) ==> Concat(chunks) == content
  }

  function FinishStep(cfg: Config, s: State, r: ReqId, chunks: seq<Chunk>, now: Instant): State
    requires r in s.requests && s.requests[r].phase.Filling?
  {
    var q := s.requests[r];
    var p := q.phase;
    match FillBody(cfg.sha256, cfg.maxBytes, p.etag, chunks)
    case Aborted => To(s, r, Releasing(Failed))
    case Uncached(body) => To(s, r, Releasing(Served(body, p.answered)))
    case Stored(body) =>
      To(s, r, Releasing(Served(body, p.answered))).(
        store := Publish(s.store, q.path, cfg.sha256(body), body, now),
        overruns := if |body| > p.reserved then s.overruns + 1 else s.overruns)
  }

  /** What `known.first()` gives. */
  function First(known: seq<Digest>): Option<Digest> {
    if known == [] then None else Some(known[0])
  }

  function PinStep(s: State, r: ReqId, now: Instant): State
    requires r in s.requests && s.requests[r].phase.Revalidated?
  {
    var p := s.requests[r].phase;
    if p.known == [] then To(s, r, Releasing(BlobMissing))
    else
      match Pin(s.store, p.known[0], now)
      case None => To(s, r, Releasing(BlobMissing))
      case Some(store') => To(s, r, Reading(p.known[0], p.answered)).(store := store')
  }

  /** Plain forwarding hands on whatever the upstream answers. */
  function AnswerDirectStep(s: State, r: ReqId, reply: Reply): Option<State>
    requires r in s.requests && s.requests[r].phase.Direct?
  {
    var hist := Hist(s, s.requests[r].path);
    match reply
    case NoReply => Some(To(s, r, Done(Failed, |hist|)))
    case Refusal => Some(To(s, r, Done(Relayed, |hist|)))
    case NotModified => Some(To(s, r, Done(Relayed, |hist|)))
    case Content(_, _) =>
      if hist != [] then Some(To(s, r, Done(Served(hist[|hist| - 1], |hist| - 1), |hist|))) else None
  }

  ghost predicate Enabled(s: State, e: Event) {
    match e
    case Upload(_, _) => true
    case Arrive(r, _) => r !in s.requests
    case Wake(r) => r in s.requests && s.requests[r].phase.Waiting?
    case TimeOut(r) => r in s.requests && s.requests[r].phase.Waiting?
    case Snapshot(r) => r in s.requests && s.requests[r].phase.Probing?
    case TakeLead(r) => r in s.requests && s.requests[r].phase.Snapshotted?
    case Answer(r, _) => r in s.requests && s.requests[r].phase.Leading?
    case Admit(r, _) => r in s.requests && s.requests[r].phase.Admitting?
    case Finish(r, chunks, _) =>
      r in s.requests && s.requests[r].phase.Filling? && Delivers(chunks, s.requests[r].phase.body)
    case PinFirst(r, first, _) =>
      r in s.requests && s.requests[r].phase.Revalidated? && first == First(s.requests[r].phase.known)
    case Read(r) => r in s.requests && s.requests[r].phase.Reading? && s.requests[r].phase.sha in s.store.blobs
    case Release(r) => r in s.requests && s.requests[r].phase.Releasing?
    case AnswerDirect(r, _) => r in s.requests && s.requests[r].phase.Direct?
  }

  /** One step of the system, `None` where the event cannot happen. */
  ghost function Next(cfg: Config, s: State, e: Event): Option<State> {
    if !Enabled(s, e) then None
    else
      match e
      case Upload(path, content) => Some(s.(history := s.history[path := Hist(s, path) + [content]]))
      case Arrive(r, path) =>
        var phase := if path in s.store.inflight then Waiting else Probing;
        Some(s.(requests := s.requests[r := Request(path, |Hist(s, path)|, phase)]))
      case Wake(r) => Some(To(s, r, Probing))
      case TimeOut(r) => Some(To(s, r, Done(FillInProgress, |Hist(s, s.requests[r].path)|)))
      case Snapshot(r) => Some(To(s, r, Snapshotted(Known(s.store, s.requests[r].path))))
      case TakeLead(r) =>
        var (store', led) := Claim(s.store, s.requests[r].path, r);
        Some(To(s, r, if led then Leading(s.requests[r].phase.known) else Direct).(store := store'))
      case Answer(r, reply) => AnswerStep(cfg, s, r, reply)
      case Admit(r, order) => AdmitStep(cfg, s, r, order)
      case Finish(r, chunks, now) => Some(FinishStep(cfg, s, r, chunks, now))
      case PinFirst(r, _, now) => Some(PinStep(s, r, now))
      case Read(r) =>
        var p := s.requests[r].phase;
        Some(To(s, r, Releasing(Served(s.store.blobs[p.sha], p.answered))).(store := Unpin(s.store, p.sha)))
      case Release(r) =>
        var q := s.requests[r];
        Some(To(s, r, Done(q.phase.outcome, |Hist(s, q.path)|)).(store := ReleaseLead(s.store, q.path)))
      case AnswerDirect(r, reply) => AnswerDirectStep(s, r, reply)
  }

  ghost function Run(cfg: Config, s: State, events: seq<Event>): Option<State>
    decreases |events|
  {
    if events == [] then Some(s)
    else
      match Next(cfg, s, events[0])
      case None => None
      case Some(s') => Run(cfg, s', events[1..])
  }

  /** The proxy just started on a well-formed blob directory. */
  ghost predicate Init(cfg: Config, s: State) {
    && s.requests == map[] && s.history == map[] && s.overruns == 0
    && s.store.index == map[] && s.store.inflight == map[] && s.store.refcounts == map[]
    && Consistent(s.store) && ContentAddressed(cfg.sha256, s.store)
  }
}
