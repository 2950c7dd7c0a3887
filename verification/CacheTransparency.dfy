/**
 The cache agrees with plain forwarding: every 200 carries bytes the upstream held as
 current while the request was in progress, if no path's content ever returns to an
 earlier version.  Without that hypothesis a 304 can stand for an older digest than the
 one the proxy serves; `RevalidationExact` says exactly when it does not.
 */
module CacheTransparency {
  import opened ArtifactStore
  import opened CacheProtocol
  import opened CacheSafety
  import opened Wrappers

  // ---------------------------------------------------------------- versions

  ghost predicate Distinct(hist: seq<Bytes>) {
    forall i, j :: 0 <= i < j < |hist| ==> hist[i] != hist[j]
  }

  /** No path's content ever returned to an earlier version. */
  ghost predicate NoReturn(s: State) {
    forall path :: Distinct(Hist(s, path))
  }

  /** The latest version with this digest, -1 if there is none. */
  function Version(sha256: Bytes -> Digest, hist: seq<Bytes>, sha: Digest): (v: int)
    ensures -1 <= v < |hist| && (v >= 0 ==> sha256(hist[v]) == sha)
  {
    if hist == [] then -1
    else if sha256(hist[|hist| - 1]) == sha then |hist| - 1
    else Version(sha256, hist[..|hist| - 1], sha)
  }

  lemma {:induction false} VersionOfIndex(sha256: Bytes -> Digest, hist: seq<Bytes>, i: nat)
    requires Injective(sha256) && Distinct(hist) && i < |hist|
    ensures Version(sha256, hist, sha256(hist[i])) == i
    decreases |hist|
  {
    var last := |hist| - 1;
    if i < last {
      assert hist[i] != hist[last];
      assert sha256(hist[last]) != sha256(hist[i]);
      VersionOfIndex(sha256, hist[..last], i);
    }
  }

  /** Strictly newest first, in the upstream's own order. */
  ghost predicate NewestFirst(sha256: Bytes -> Digest, hist: seq<Bytes>, list: seq<Digest>) {
    && (forall i :: 0 <= i < |list| ==> Version(sha256, hist, list[i]) >= 0)
    && (forall i, j :: 0 <= i < j < |list| ==> Version(sha256, hist, list[i]) > Version(sha256, hist, list[j]))
  }

  /** Nothing in the list is newer than version `v`. */
  ghost predicate NoneNewer(sha256: Bytes -> Digest, hist: seq<Bytes>, list: seq<Digest>, v: nat) {
    forall i :: 0 <= i < |list| ==> Version(sha256, hist, list[i]) <= v
  }

  lemma VersionAfterUpload(sha256: Bytes -> Digest, hist: seq<Bytes>, content: Bytes, sha: Digest)
    requires Injective(sha256) && Distinct(hist + [content]) && Version(sha256, hist, sha) >= 0
    ensures Version(sha256, hist + [content], sha) == Version(sha256, hist, sha)
  {
    var v, hist' := Version(sha256, hist, sha), hist + [content];
    assert hist'[v] == hist[v] && hist'[|hist|] == content && hist'[v] != hist'[|hist|];
    assert hist'[..|hist|] == hist;
  }

  lemma UploadKeepsOrder(sha256: Bytes -> Digest, hist: seq<Bytes>, content: Bytes, list: seq<Digest>)
    requires Injective(sha256) && Distinct(hist + [content]) && NewestFirst(sha256, hist, list)
    ensures NewestFirst(sha256, hist + [content], list)
    ensures forall v: nat :: NoneNewer(sha256, hist, list, v) ==> NoneNewer(sha256, hist + [content], list, v)
  {
    forall i | 0 <= i < |list| ensures Version(sha256, hist + [content], list[i]) == Version(sha256, hist, list[i]) {
      VersionAfterUpload(sha256, hist, content, list[i]);
    }
  }

  lemma NewestInFront(sha256: Bytes -> Digest, hist: seq<Bytes>, sha: Digest, list: seq<Digest>)
    requires NewestFirst(sha256, hist, list) && Version(sha256, hist, sha) >= 0
    requires forall k :: 0 <= k < |list| ==> Version(sha256, hist, sha) > Version(sha256, hist, list[k])
    ensures NewestFirst(sha256, hist, [sha] + list)
  {
  }

  lemma RestIsOrdered(sha256: Bytes -> Digest, hist: seq<Bytes>, list: seq<Digest>)
    requires NewestFirst(sha256, hist, list) && list != []
    ensures NewestFirst(sha256, hist, list[1..])
  {
  }

  lemma {:induction false} DroppingKeepsOrder(sha256: Bytes -> Digest, hist: seq<Bytes>, list: seq<Digest>,
                                              gone: set<Digest>)
    requires NewestFirst(sha256, hist, list)
    ensures NewestFirst(sha256, hist, Without(list, gone))
  {
    if list == [] {
    } else {
      var rest := Without(list[1..], gone);
      RestIsOrdered(sha256, hist, list);
      DroppingKeepsOrder(sha256, hist, list[1..], gone);
      forall k | 0 <= k < |rest| ensures Version(sha256, hist, list[0]) > Version(sha256, hist, rest[k]) {
        WithoutMembers(list[1..], gone, rest[k]);
        var j :| 0 <= j < |list[1..]| && list[1..][j] == rest[k];
        assert list[j + 1] == rest[k];
      }
      if list[0] !in gone {
        NewestInFront(sha256, hist, list[0], rest);
      }
    }
  }

  lemma DroppingKeepsNoneNewer(sha256: Bytes -> Digest, hist: seq<Bytes>, list: seq<Digest>, gone: set<Digest>, v: nat)
    requires NoneNewer(sha256, hist, list, v)
    ensures NoneNewer(sha256, hist, Without(list, gone), v)
  {
    var kept := Without(list, gone);
    forall k | 0 <= k < |kept| ensures Version(sha256, hist, kept[k]) <= v {
      WithoutMembers(list, gone, kept[k]);
      var j :| 0 <= j < |list| && list[j] == kept[k];
    }
  }

  /** Publishing the version just answered keeps the list newest first. */
  lemma PublishingKeepsOrder(sha256: Bytes -> Digest, hist: seq<Bytes>, list: seq<Digest>, v: nat)
    requires Injective(sha256) && Distinct(hist) && v < |hist|
    requires NewestFirst(sha256, hist, list) && NoneNewer(sha256, hist, list, v)
    ensures NewestFirst(sha256, hist, [sha256(hist[v])] + Without(list, {sha256(hist[v])}))
  {
    var sha := sha256(hist[v]);
    var kept := Without(list, {sha});
    VersionOfIndex(sha256, hist, v);
    DroppingKeepsOrder(sha256, hist, list, {sha});
    DroppingKeepsNoneNewer(sha256, hist, list, {sha}, v);
    forall k | 0 <= k < |kept| ensures Version(sha256, hist, kept[k]) < v {
      WithoutMembers(list, {sha}, kept[k]);
      assert Version(sha256, hist, kept[k]) <= v && sha256(hist[Version(sha256, hist, kept[k])]) == kept[k];
    }
    NewestInFront(sha256, hist, sha, kept);
  }

  // ---------------------------------------------------------------- what a 304 means

  /** Newest first, a 304 can only stand for the first known digest. */
  lemma RevalidationMeansFirst(sha256: Bytes -> Digest, hist: seq<Bytes>, known: seq<Digest>)
    requires Injective(sha256) && Distinct(hist) && hist != [] && NewestFirst(sha256, hist, known)
    requires sha256(hist[|hist| - 1]) in Validators(known)
    ensures known[0] == sha256(hist[|hist| - 1])
  {
    var current := sha256(hist[|hist| - 1]);
    var j :| 0 <= j < |Validators(known)| && Validators(known)[j] == current;
    assert known[j] == current;
    assert Version(sha256, hist, known[j]) == |hist| - 1 >= Version(sha256, hist, known[0]);
  }

  /**
   The exact condition, for every list without duplicates and every upstream content: after a 304 the
   first known digest is the current one unless the current one is among the validators after the first.
   */
  lemma RevalidationExact(known: seq<Digest>, current: Digest)
    requires NoDuplicates(known) && current in Validators(known)
    ensures known[0] == current <==> current !in Validators(known)[1..]
  {
    var sent := Validators(known);
    var j :| 0 <= j < |sent| && sent[j] == current;
    assert forall i :: 0 <= i < |sent| ==> sent[i] == known[i];
    if j > 0 {
      assert sent[1..][j - 1] == current;
    }
  }

  // ---------------------------------------------------------------- the invariant

  predicate InTime(q: Request, hist: seq<Bytes>, v: nat) {
    v < |hist| && q.arrived <= v + 1
  }

  predicate ServedFaithfully(q: Request, hist: seq<Bytes>, outcome: Outcome) {
    outcome.Served? ==> InTime(q, hist, outcome.answered) && hist[outcome.answered] == outcome.body
  }

  ghost predicate RequestFaithful(sha256: Bytes -> Digest, hist: seq<Bytes>, list: seq<Digest>, q: Request) {
    q.arrived <= |hist| &&
    match q.phase
    case Snapshotted(known) => NewestFirst(sha256, hist, known)
    case Leading(known) => NewestFirst(sha256, hist, known)
    case Revalidated(known, v) => InTime(q, hist, v) && (known != [] ==> known[0] == sha256(hist[v]))
    case Admitting(body, _, _, v) => InTime(q, hist, v) && hist[v] == body && NoneNewer(sha256, hist, list, v)
    case Filling(body, _, _, v) => InTime(q, hist, v) && hist[v] == body && NoneNewer(sha256, hist, list, v)
    case Reading(sha, v) => InTime(q, hist, v) && sha == sha256(hist[v])
    case Releasing(outcome) => ServedFaithfully(q, hist, outcome)
    case Done(outcome, finished) =>
      finished <= |hist| && ServedFaithfully(q, hist, outcome) && (outcome.Served? ==> outcome.answered < finished)
    case _ => true
  }

  ghost predicate ListsOrdered(cfg: Config, s: State) {
    forall path :: NewestFirst(cfg.sha256, Hist(s, path), Known(s.store, path))
  }

  ghost predicate RequestsFaithful(cfg: Config, s: State) {
    forall r <- s.requests ::
      RequestFaithful(cfg.sha256, Hist(s, s.requests[r].path), Known(s.store, s.requests[r].path), s.requests[r])
  }

  /** The key invariant: every list is newest first, and every request is on the way to a faithful answer. */
  ghost predicate Faithful(cfg: Config, s: State) {
    ListsOrdered(cfg, s) && RequestsFaithful(cfg, s)
  }

  lemma RequestAfterUpload(sha256: Bytes -> Digest, hist: seq<Bytes>, content: Bytes, list: seq<Digest>, q: Request)
    requires Injective(sha256) && Distinct(hist + [content]) && NewestFirst(sha256, hist, list)
    requires RequestFaithful(sha256, hist, list, q)
    ensures RequestFaithful(sha256, hist + [content], list, q)
  {
    UploadKeepsOrder(sha256, hist, content, list);
    if q.phase.Snapshotted? || q.phase.Leading? {
      UploadKeepsOrder(sha256, hist, content, q.phase.known);
    }
  }

  lemma UploadKeepsFaithful(cfg: Config, s: State, path: Path, content: Bytes)
    requires Injective(cfg.sha256) && Faithful(cfg, s)
    requires NoReturn(Next(cfg, s, Upload(path, content)).value)
    ensures Faithful(cfg, Next(cfg, s, Upload(path, content)).value)
  {
    var s' := Next(cfg, s, Upload(path, content)).value;
    var hist := Hist(s, path);
    assert Hist(s', path) == hist + [content] && Distinct(Hist(s', path));
    assert NewestFirst(cfg.sha256, hist, Known(s.store, path));
    UploadKeepsOrder(cfg.sha256, hist, content, Known(s.store, path));
    forall p ensures NewestFirst(cfg.sha256, Hist(s', p), Known(s'.store, p)) {
      assert NewestFirst(cfg.sha256, Hist(s, p), Known(s.store, p));
    }
    forall r | r in s'.requests
      ensures RequestFaithful(cfg.sha256, Hist(s', s'.requests[r].path), Known(s'.store, s'.requests[r].path),
          s'.requests[r])
    {
      if s.requests[r].path == path {
        RequestAfterUpload(cfg.sha256, hist, content, Known(s.store, path), s.requests[r]);
      }
    }
  }

  /** The index only lost digests. */
  ghost predicate IndexDropped(s: Store, s': Store, gone: set<Digest>) {
    forall path :: Known(s', path) == Without(Known(s, path), gone)
  }

  lemma RequestAfterDrop(sha256: Bytes -> Digest, hist: seq<Bytes>, list: seq<Digest>, gone: set<Digest>, q: Request)
    requires RequestFaithful(sha256, hist, list, q)
    ensures RequestFaithful(sha256, hist, Without(list, gone), q)
  {
    if q.phase.Admitting? || q.phase.Filling? {
      DroppingKeepsNoneNewer(sha256, hist, list, gone, q.phase.answered);
    }
  }

  /** A step of one request that at most drops digests from the index. */
  lemma OneRequestKeepsFaithful(cfg: Config, s: State, s': State, r: ReqId, q: Request, gone: set<Digest>)
    requires Faithful(cfg, s) && s'.history == s.history && s'.requests == s.requests[r := q]
    requires IndexDropped(s.store, s'.store, gone)
    requires RequestFaithful(cfg.sha256, Hist(s, q.path), Known(s.store, q.path), q)
    ensures Faithful(cfg, s')
  {
    forall p ensures NewestFirst(cfg.sha256, Hist(s', p), Known(s'.store, p)) {
      assert NewestFirst(cfg.sha256, Hist(s, p), Known(s.store, p));
      DroppingKeepsOrder(cfg.sha256, Hist(s, p), Known(s.store, p), gone);
    }
    forall x | x in s'.requests
      ensures RequestFaithful(cfg.sha256, Hist(s', s'.requests[x].path), Known(s'.store, s'.requests[x].path),
          s'.requests[x])
    {
      var mover := s'.requests[x];
      RequestAfterDrop(cfg.sha256, Hist(s, mover.path), Known(s.store, mover.path), gone, mover);
    }
  }

  lemma SameIndexDropsNothing(s: Store, s': Store)
    requires s'.index == s.index
    ensures IndexDropped(s, s', {})
  {
    forall path ensures Known(s', path) == Without(Known(s, path), {}) {
      WithoutNothing(Known(s, path));
    }
  }

  lemma RemovalDrops(s: Store, gone: set<Digest>)
    ensures IndexDropped(s, RemoveAll(s, gone), gone)
  {
    forall path ensures Known(RemoveAll(s, gone), path) == Without(Known(s, path), gone) {
      if path in s.index {
        assert path in DropFrom(s.index, gone);
      }
    }
  }

  lemma ReserveDropsVictims(s: Store, order: seq<Digest>, needed: nat, max: nat) returns (gone: set<Digest>)
    requires Accounted(s) && s.lastUsed.Keys == s.blobs.Keys && LruOrder(order, s.lastUsed)
    ensures IndexDropped(s, Reserve(s, order, needed, max).0, gone)
  {
    if needed > max / 4 {
      gone := {};
      SameIndexDropsNothing(s, s);
    } else {
      var n := ReserveIsCut(s, order, needed, max);
      gone := Elements(Unpinned(s, order)[..n]);
      RemovalDrops(s, gone);
    }
  }

  lemma AdmitKeepsFaithful(cfg: Config, s: State, r: ReqId, order: seq<Digest>)
    requires Faithful(cfg, s) && Consistent(s.store)
    requires r in s.requests && s.requests[r].phase.Admitting? && AdmitStep(cfg, s, r, order).Some?
    ensures Faithful(cfg, AdmitStep(cfg, s, r, order).value)
  {
    var s' := AdmitStep(cfg, s, r, order).value;
    var needed := s.requests[r].phase.declared;
    var gone := {};
    if needed > 0 {
      gone := ReserveDropsVictims(s.store, order, needed, cfg.maxBytes);
    } else {
      SameIndexDropsNothing(s.store, s'.store);
    }
    OneRequestKeepsFaithful(cfg, s, s', r, s'.requests[r], gone);
  }

  /** What publishing does to the lists. */
  lemma PublishedLists(s: Store, path: Path, sha: Digest, body: Bytes, now: Instant, p: Path)
    ensures Known(Publish(s, path, sha, body, now), p)
         == if p == path then [sha] + Without(Known(s, path), {sha}) else Known(s, p)
  {
  }

  /** A publication: the one step that adds to a list. Nobody else is filling the path. */
  lemma PublishKeepsFaithful(cfg: Config, s: State, r: ReqId, chunks: seq<Chunk>, now: Instant)
    requires Injective(cfg.sha256) && NoReturn(s) && Faithful(cfg, s) && SingleFlight(s)
    requires r in s.requests && s.requests[r].phase.Filling? && Delivers(chunks, s.requests[r].phase.body)
    requires FillBody(cfg.sha256, cfg.maxBytes, s.requests[r].phase.etag, chunks).Stored?
    ensures Faithful(cfg, FinishStep(cfg, s, r, chunks, now))
  {
    var s' := FinishStep(cfg, s, r, chunks, now);
    var q := s.requests[r];
    var hist, list, v := Hist(s, q.path), Known(s.store, q.path), q.phase.answered;
    assert RequestFaithful(cfg.sha256, hist, list, q) && Distinct(hist);
    assert NewestFirst(cfg.sha256, hist, list);
    PublishingKeepsOrder(cfg.sha256, hist, list, v);
    forall p ensures NewestFirst(cfg.sha256, Hist(s', p), Known(s'.store, p)) {
      assert NewestFirst(cfg.sha256, Hist(s, p), Known(s.store, p));
      PublishedLists(s.store, q.path, cfg.sha256(q.phase.body), q.phase.body, now, p);
    }
    forall x | x in s'.requests
      ensures RequestFaithful(cfg.sha256, Hist(s', s'.requests[x].path), Known(s'.store, s'.requests[x].path),
          s'.requests[x])
    {
      PublishedLists(s.store, q.path, cfg.sha256(q.phase.body), q.phase.body, now, s.requests[x].path);
      if x != r {
        assert RequestFaithful(cfg.sha256, Hist(s, s.requests[x].path), Known(s.store, s.requests[x].path),
            s.requests[x]);
        if s.requests[x].path == q.path && Leads(s.requests[x].phase) {
          OneFillPerPath(s, r, x);
        }
      }
    }
  }

  lemma SameIndexKeepsFaithful(cfg: Config, s: State, s': State, r: ReqId, q: Request)
    requires Faithful(cfg, s) && s'.history == s.history && s'.requests == s.requests[r := q]
    requires s'.store.index == s.store.index
    requires RequestFaithful(cfg.sha256, Hist(s, q.path), Known(s.store, q.path), q)
    ensures Faithful(cfg, s')
  {
    SameIndexDropsNothing(s.store, s'.store);
    OneRequestKeepsFaithful(cfg, s, s', r, q, {});
  }

  lemma AnswerKeepsFaithful(cfg: Config, s: State, r: ReqId, reply: Reply)
    requires Injective(cfg.sha256) && NoReturn(s) && Faithful(cfg, s)
    requires r in s.requests && s.requests[r].phase.Leading? && AnswerStep(cfg, s, r, reply).Some?
    ensures Faithful(cfg, AnswerStep(cfg, s, r, reply).value)
  {
    var s' := AnswerStep(cfg, s, r, reply).value;
    var q := s.requests[r];
    var hist, known, list := Hist(s, q.path), q.phase.known, Known(s.store, q.path);
    assert RequestFaithful(cfg.sha256, hist, list, q) && Distinct(hist);
    if reply.NotModified? && known != [] {
      RevalidationMeansFirst(cfg.sha256, hist, known);
    }
    if reply.Content? {
      assert NoneNewer(cfg.sha256, hist, list, |hist| - 1);
    }
    SameIndexKeepsFaithful(cfg, s, s', r, s'.requests[r]);
  }

  lemma ReadKeepsFaithful(cfg: Config, s: State, r: ReqId)
    requires Injective(cfg.sha256) && Faithful(cfg, s) && ContentAddressed(cfg.sha256, s.store)
    requires Next(cfg, s, Read(r)).Some?
    ensures Faithful(cfg, Next(cfg, s, Read(r)).value)
  {
    var s' := Next(cfg, s, Read(r)).value;
    var q := s.requests[r];
    var hist := Hist(s, q.path);
    assert RequestFaithful(cfg.sha256, hist, Known(s.store, q.path), q);
    assert cfg.sha256(s.store.blobs[q.phase.sha]) == cfg.sha256(hist[q.phase.answered]);
    SameIndexKeepsFaithful(cfg, s, s', r, s'.requests[r]);
  }

  /** Taking and dropping the lead, waiting, and plain forwarding. */
  lemma PassingKeepsFaithful(cfg: Config, s: State, e: Event)
    requires Faithful(cfg, s) && Next(cfg, s, e).Some?
    requires e.Arrive? || e.Wake? || e.TimeOut? || e.TakeLead? || e.Release?
    ensures Faithful(cfg, Next(cfg, s, e).value)
  {
    var s' := Next(cfg, s, e).value;
    var q := s'.requests[e.r];
    if !e.Arrive? {
      assert RequestFaithful(cfg.sha256, Hist(s, q.path), Known(s.store, q.path), s.requests[e.r]);
    }
    SameIndexKeepsFaithful(cfg, s, s', e.r, q);
  }

  lemma DirectKeepsFaithful(cfg: Config, s: State, r: ReqId, reply: Reply)
    requires Faithful(cfg, s) && r in s.requests && s.requests[r].phase.Direct? && AnswerDirectStep(s, r, reply).Some?
    ensures Faithful(cfg, AnswerDirectStep(s, r, reply).value)
  {
    var s' := AnswerDirectStep(s, r, reply).value;
    var q := s'.requests[r];
    assert RequestFaithful(cfg.sha256, Hist(s, q.path), Known(s.store, q.path), s.requests[r]);
    SameIndexKeepsFaithful(cfg, s, s', r, q);
  }

  lemma PinKeepsFaithful(cfg: Config, s: State, r: ReqId, now: Instant)
    requires Faithful(cfg, s) && r in s.requests && s.requests[r].phase.Revalidated?
    ensures Faithful(cfg, PinStep(s, r, now))
  {
    var s' := PinStep(s, r, now);
    var q := s'.requests[r];
    assert RequestFaithful(cfg.sha256, Hist(s, q.path), Known(s.store, q.path), s.requests[r]);
    SameIndexKeepsFaithful(cfg, s, s', r, q);
  }

  lemma SnapshotKeepsFaithful(cfg: Config, s: State, r: ReqId)
    requires Faithful(cfg, s) && Next(cfg, s, Snapshot(r)).Some?
    ensures Faithful(cfg, Next(cfg, s, Snapshot(r)).value)
  {
    var s' := Next(cfg, s, Snapshot(r)).value;
    var q := s'.requests[r];
    assert RequestFaithful(cfg.sha256, Hist(s, q.path), Known(s.store, q.path), s.requests[r]);
    assert NewestFirst(cfg.sha256, Hist(s, q.path), Known(s.store, q.path));
    SameIndexKeepsFaithful(cfg, s, s', r, q);
  }

  lemma FinishKeepsFaithful(cfg: Config, s: State, r: ReqId, chunks: seq<Chunk>, now: Instant)
    requires Injective(cfg.sha256) && NoReturn(s) && Faithful(cfg, s) && SingleFlight(s)
    requires r in s.requests && s.requests[r].phase.Filling? && Delivers(chunks, s.requests[r].phase.body)
    ensures Faithful(cfg, FinishStep(cfg, s, r, chunks, now))
  {
    var s' := FinishStep(cfg, s, r, chunks, now);
    var q := s.requests[r];
    if FillBody(cfg.sha256, cfg.maxBytes, q.phase.etag, chunks).Stored? {
      PublishKeepsFaithful(cfg, s, r, chunks, now);
    } else {
      assert RequestFaithful(cfg.sha256, Hist(s, q.path), Known(s.store, q.path), q);
      SameIndexKeepsFaithful(cfg, s, s', r, s'.requests[r]);
    }
  }

  lemma FaithfulStep(cfg: Config, s: State, e: Event)
    requires Injective(cfg.sha256) && Safe(cfg, s) && Faithful(cfg, s) && Next(cfg, s, e).Some?
    requires NoReturn(s) && NoReturn(Next(cfg, s, e).value)
    ensures Faithful(cfg, Next(cfg, s, e).value)
  {
    match e
    case Upload(path, content) => UploadKeepsFaithful(cfg, s, path, content);
    case Snapshot(r) => SnapshotKeepsFaithful(cfg, s, r);
    case Answer(r, reply) => AnswerKeepsFaithful(cfg, s, r, reply);
    case Admit(r, order) => AdmitKeepsFaithful(cfg, s, r, order);
    case Finish(r, chunks, now) => FinishKeepsFaithful(cfg, s, r, chunks, now);
    case PinFirst(r, _, now) => PinKeepsFaithful(cfg, s, r, now);
    case Read(r) => ReadKeepsFaithful(cfg, s, r);
    case AnswerDirect(r, reply) => DirectKeepsFaithful(cfg, s, r, reply);
    case _ => PassingKeepsFaithful(cfg, s, e);
  }

  // ---------------------------------------------------------------- over whole runs

  lemma EarlierHistoryIsPrefix(cfg: Config, s: State, e: Event)
    requires Next(cfg, s, e).Some? && NoReturn(Next(cfg, s, e).value)
    ensures NoReturn(s)
  {
    var s' := Next(cfg, s, e).value;
    forall path ensures Distinct(Hist(s, path)) {
      assert Distinct(Hist(s', path));
      forall i, j | 0 <= i < j < |Hist(s, path)| ensures Hist(s, path)[i] != Hist(s, path)[j] {
        assert Hist(s', path)[i] == Hist(s, path)[i] && Hist(s', path)[j] == Hist(s, path)[j];
      }
    }
  }

  lemma {:induction false} FaithfulRun(cfg: Config, s: State, events: seq<Event>)
    requires Injective(cfg.sha256) && Safe(cfg, s) && Faithful(cfg, s)
    requires Run(cfg, s, events).Some? && NoReturn(Run(cfg, s, events).value)
    ensures NoReturn(s) && Faithful(cfg, Run(cfg, s, events).value)
    decreases |events|
  {
    if events == [] {
    } else {
      var e := events[0];
      var s' := Next(cfg, s, e).value;
      SingleFlightStep(cfg, s, e);
      ConservedStep(cfg, s, e);
      NoReturnBefore(cfg, s', events[1..]);
      EarlierHistoryIsPrefix(cfg, s, e);
      FaithfulStep(cfg, s, e);
      FaithfulRun(cfg, s', events[1..]);
    }
  }

  lemma {:induction false} NoReturnBefore(cfg: Config, s: State, events: seq<Event>)
    requires Run(cfg, s, events).Some? && NoReturn(Run(cfg, s, events).value)
    ensures NoReturn(s)
    decreases |events|
  {
    if events == [] {
    } else {
      NoReturnBefore(cfg, Next(cfg, s, events[0]).value, events[1..]);
      EarlierHistoryIsPrefix(cfg, s, events[0]);
    }
  }

  /**
   Main result, cache transparency: in every interleaving in which no path's content returns to an
   earlier version, each 200 carries exactly a version that was current at the upstream at some moment
   between the request's arrival and its completion.
   */
  lemma CacheIsTransparent(cfg: Config, init: State, events: seq<Event>, r: ReqId)
    requires Injective(cfg.sha256) && Init(cfg, init)
    requires Run(cfg, init, events).Some? && NoReturn(Run(cfg, init, events).value)
    requires var s := Run(cfg, init, events).value;
             r in s.requests && s.requests[r].phase.Done? && s.requests[r].phase.outcome.Served?
    ensures var s := Run(cfg, init, events).value;
            var q := s.requests[r];
            var served := q.phase.outcome;
            && q.arrived <= served.answered + 1 && served.answered < q.phase.finished <= |Hist(s, q.path)|
            && served.body == Hist(s, q.path)[served.answered]
  {
    InitIsSafe(cfg, init);
    FaithfulRun(cfg, init, events);
    var s := Run(cfg, init, events).value;
    var q := s.requests[r];
    assert RequestFaithful(cfg.sha256, Hist(s, q.path), Known(s.store, q.path), q);
  }
}
