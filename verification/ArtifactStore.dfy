/**
 The fields of `ArtifactCache` and its blob directory as one value, and what each atomic
 step of `artifact_cache.rs` does to them.  The class in `ArtifactCache.dfy` is proved
 against these functions and the interleavings of `CacheProtocol.dfy` are built from them.
 */
module ArtifactStore {
  import opened Text
  import opened Totals
  import opened Wrappers

  datatype Digest = Digest(hex: string)
  datatype Path = Path(text: string)
  type Bytes = seq<bv8>
  type Instant = int

  /** A request's identity: it stands for the `Arc<Notify>` the request brings along. */
  type Token = nat

  const MAX_IF_NONE_MATCH: nat := 8

  datatype Store = Store(
    index: map<Path, seq<Digest>>,
    inflight: map<Path, Token>,
    refcounts: map<Digest, nat>,
    lastUsed: map<Digest, Instant>,
    bytesUsed: nat,
    blobs: map<Digest, Bytes>)

  function Known(s: Store, path: Path): seq<Digest> {
    if path in s.index then s.index[path] else []
  }

  function Pins(s: Store, sha: Digest): nat {
    if sha in s.refcounts then s.refcounts[sha] else 0
  }

  predicate Pinned(s: Store, sha: Digest) {
    Pins(s, sha) > 0
  }

  // ---------------------------------------------------------------- lists

  predicate NoDuplicates(list: seq<Digest>) {
    forall i, j :: 0 <= i < j < |list| ==> list[i] != list[j]
  }

  /** `retain(|h| h not in gone)`. */
  function Without(list: seq<Digest>, gone: set<Digest>): seq<Digest> {
    if list == [] then []
    else if list[0] in gone then Without(list[1..], gone)
    else [list[0]] + Without(list[1..], gone)
  }

  lemma {:induction false} WithoutMembers(list: seq<Digest>, gone: set<Digest>, sha: Digest)
    ensures sha in Without(list, gone) <==> sha in list && sha !in gone
  {
    if list == [] {
    } else {
      WithoutMembers(list[1..], gone, sha);
      assert list == [list[0]] + list[1..];
    }
  }

  lemma {:induction false} WithoutKeepsNoDuplicates(list: seq<Digest>, gone: set<Digest>)
    requires NoDuplicates(list)
    ensures NoDuplicates(Without(list, gone))
  {
    if list == [] {
    } else {
      WithoutKeepsNoDuplicates(list[1..], gone);
      WithoutMembers(list[1..], gone, list[0]);
    }
  }

  lemma {:induction false} WithoutTwice(list: seq<Digest>, first: set<Digest>, second: set<Digest>)
    ensures Without(Without(list, first), second) == Without(list, first + second)
  {
    if list == [] {
    } else {
      WithoutTwice(list[1..], first, second);
      if list[0] !in first {
        assert Without(list, first)[1..] == Without(list[1..], first);
      }
    }
  }

  lemma {:induction false} WithoutNothing(list: seq<Digest>)
    ensures Without(list, {}) == list
  {
    if list == [] {
    } else {
      WithoutNothing(list[1..]);
    }
  }

  // ---------------------------------------------------------------- consistency

  function Length(body: Bytes): nat {
    |body|
  }

  ghost function StoredBytes(blobs: map<Digest, Bytes>): nat {
    Total(blobs, Length)
  }

  predicate ListSound(list: seq<Digest>, blobs: set<Digest>) {
    NoDuplicates(list) && forall sha <- list :: sha in blobs
  }

  predicate IndexSound(s: Store) {
    forall path <- s.index :: ListSound(s.index[path], s.blobs.Keys)
  }

  /** The byte count is the sum of the blob sizes. */
  ghost predicate Accounted(s: Store) {
    s.bytesUsed == StoredBytes(s.blobs)
  }

  /** What every step keeps: the bytes add up, and nothing points at a missing blob. */
  ghost predicate Consistent(s: Store) {
    && Accounted(s)
    && s.lastUsed.Keys == s.blobs.Keys
    && IndexSound(s)
    && (forall sha :: Pinned(s, sha) ==> sha in s.blobs)
  }

  ghost predicate Injective(sha256: Bytes -> Digest) {
    forall a, b :: sha256(a) == sha256(b) ==> a == b
  }

  ghost predicate ContentAddressed(sha256: Bytes -> Digest, s: Store) {
    forall sha <- s.blobs :: sha256(s.blobs[sha]) == sha
  }

  // ---------------------------------------------------------------- eviction

  ghost function DropFrom(index: map<Path, seq<Digest>>, gone: set<Digest>): (kept: map<Path, seq<Digest>>)
    ensures kept.Keys == index.Keys
    ensures forall path <- index :: kept[path] == Without(index[path], gone)
    decreases |index|
  {
    if |index| == 0 then map[]
    else
      var path := PickKey(index);
      DropFrom(index - {path}, gone)[path := Without(index[path], gone)]
  }

  /** `artifact_cache.rs` removes one blob: the file, its size, its last use, its index entries. */
  ghost function Evict(s: Store, sha: Digest): Store
    requires sha in s.blobs
  {
    s.(blobs := s.blobs - {sha},
       bytesUsed := if s.bytesUsed >= |s.blobs[sha]| then s.bytesUsed - |s.blobs[sha]| else 0,
       lastUsed := s.lastUsed - {sha},
       index := DropFrom(s.index, {sha}))
  }

  /** The eviction loop over the entries in the order given. */
  ghost function Sweep(s: Store, order: seq<Digest>, needed: nat, max: nat): Store
    decreases |order|
  {
    if order == [] || s.bytesUsed + needed <= max then s
    else if Pinned(s, order[0]) || order[0] !in s.blobs then Sweep(s, order[1..], needed, max)
    else Sweep(Evict(s, order[0]), order[1..], needed, max)
  }

  /** `reserve_space`: at most a quarter of the budget, evicting if need be. */
  ghost function Reserve(s: Store, order: seq<Digest>, needed: nat, max: nat): (Store, bool) {
    if needed > max / 4 then (s, false)
    else if s.bytesUsed + needed <= max then (s, true)
    else
      var s' := Sweep(s, order, needed, max);
      (s', s'.bytesUsed + needed <= max)
  }

  /** The order of `sort_by_key` on last use: every entry once, oldest first. */
  ghost predicate LruOrder(order: seq<Digest>, lastUsed: map<Digest, Instant>) {
    && NoDuplicates(order)
    && (forall sha :: sha in order <==> sha in lastUsed)
    && (forall i, j :: 0 <= i < j < |order| ==> lastUsed[order[i]] <= lastUsed[order[j]])
  }

  function Unpinned(s: Store, order: seq<Digest>): seq<Digest> {
    if order == [] then []
    else if Pinned(s, order[0]) then Unpinned(s, order[1..])
    else [order[0]] + Unpinned(s, order[1..])
  }

  lemma {:induction false} UnpinnedMembers(s: Store, order: seq<Digest>, sha: Digest)
    ensures sha in Unpinned(s, order) <==> sha in order && !Pinned(s, sha)
  {
    if order == [] {
    } else {
      UnpinnedMembers(s, order[1..], sha);
      assert order == [order[0]] + order[1..];
    }
  }

  function Elements(list: seq<Digest>): set<Digest> {
    set x | x in list
  }

  /** The reference: all victims gone at once, the byte count recomputed from what is left. */
  ghost function RemoveAll(s: Store, victims: set<Digest>): Store {
    s.(blobs := s.blobs - victims,
       bytesUsed := StoredBytes(s.blobs - victims),
       lastUsed := s.lastUsed - victims,
       index := DropFrom(s.index, victims))
  }

  ghost function PinnedBytes(s: Store): nat {
    StoredBytes(s.blobs - (set sha | sha in s.blobs && !Pinned(s, sha)))
  }

  /** The store without the first `n` of `free`. */
  ghost function RemoveFirst(s: Store, free: seq<Digest>, n: nat): Store
    requires n <= |free|
  {
    RemoveAll(s, Elements(free[..n]))
  }

  /** `n` is the shortest prefix of `free` whose removal makes room, or all of it. */
  ghost predicate Cut(s: Store, free: seq<Digest>, n: nat, needed: nat, max: nat) {
    && n <= |free|
    && (forall m :: 0 <= m < n ==> RemoveFirst(s, free, m).bytesUsed + needed > max)
    && (n == |free| || RemoveFirst(s, free, n).bytesUsed + needed <= max)
  }

  lemma EvictIsRemoval(s: Store, sha: Digest)
    requires Accounted(s) && sha in s.blobs
    ensures Evict(s, sha) == RemoveAll(s, {sha}) && Accounted(Evict(s, sha))
  {
    TotalSplit(s.blobs, Length, sha);
  }

  lemma RemovalKeepsConsistent(s: Store, victims: set<Digest>)
    requires Consistent(s) && forall sha <- victims :: !Pinned(s, sha)
    ensures Consistent(RemoveAll(s, victims))
  {
    var s' := RemoveAll(s, victims);
    forall path | path in s'.index ensures ListSound(s'.index[path], s'.blobs.Keys) {
      WithoutKeepsNoDuplicates(s.index[path], victims);
      forall sha | sha in s'.index[path] ensures sha in s'.blobs {
        WithoutMembers(s.index[path], victims, sha);
      }
    }
    assert forall sha :: Pinned(s', sha) <==> Pinned(s, sha);
  }

  lemma DropTwice(index: map<Path, seq<Digest>>, first: set<Digest>, second: set<Digest>)
    ensures DropFrom(DropFrom(index, first), second) == DropFrom(index, first + second)
  {
    var once := DropFrom(index, first);
    var twice, both := DropFrom(once, second), DropFrom(index, first + second);
    assert twice.Keys == both.Keys;
    forall path | path in both ensures twice[path] == both[path] {
      WithoutTwice(index[path], first, second);
    }
  }

  lemma RemoveTwice(s: Store, first: set<Digest>, second: set<Digest>)
    ensures RemoveAll(RemoveAll(s, first), second) == RemoveAll(s, first + second)
  {
    DropTwice(s.index, first, second);
    assert s.blobs - first - second == s.blobs - (first + second);
    assert s.lastUsed - first - second == s.lastUsed - (first + second);
  }

  lemma RemoveNothing(s: Store)
    requires Accounted(s)
    ensures RemoveAll(s, {}) == s
  {
    assert s.blobs - {} == s.blobs && s.lastUsed - {} == s.lastUsed;
    forall path | path in s.index ensures Without(s.index[path], {}) == s.index[path] {
      WithoutNothing(s.index[path]);
    }
  }

  lemma ElementsCons(x: Digest, list: seq<Digest>)
    ensures Elements([x] + list) == {x} + Elements(list)
  {
    assert ([x] + list)[0] == x;
  }

  lemma RemovePrefixAfterFirst(s: Store, free: seq<Digest>, m: nat)
    requires m < |free|
    ensures RemoveFirst(RemoveAll(s, {free[0]}), free[1..], m) == RemoveFirst(s, free, m + 1)
  {
    var tail := free[1..][..m];
    ElementsCons(free[0], tail);
    assert free[..m + 1] == [free[0]] + tail;
    RemoveTwice(s, {free[0]}, Elements(tail));
  }

  lemma RemoveFirstNone(s: Store, free: seq<Digest>)
    requires Accounted(s)
    ensures RemoveFirst(s, free, 0) == s
  {
    assert Elements(free[..0]) == {};
    RemoveNothing(s);
  }

  /** What is cut from the rest after removing the first is cut, one longer, from the whole. */
  lemma CutGrows(s: Store, s': Store, free: seq<Digest>, n: nat, needed: nat, max: nat)
    requires free != [] && s.bytesUsed + needed > max
    requires RemoveFirst(s, free, 0).bytesUsed == s.bytesUsed
    requires forall m :: 0 <= m < |free| ==>
               RemoveFirst(s', free[1..], m).bytesUsed == RemoveFirst(s, free, m + 1).bytesUsed
    requires Cut(s', free[1..], n, needed, max)
    ensures Cut(s, free, n + 1, needed, max)
  {
    forall m | 0 <= m < n + 1 ensures RemoveFirst(s, free, m).bytesUsed + needed > max {
      if m > 0 {
        assert RemoveFirst(s', free[1..], m - 1).bytesUsed == RemoveFirst(s, free, m).bytesUsed;
      }
    }
  }

  lemma EvictKeepsPins(s: Store, sha: Digest, order: seq<Digest>)
    requires sha in s.blobs
    ensures Unpinned(Evict(s, sha), order) == Unpinned(s, order)
  {
    if order != [] { EvictKeepsPins(s, sha, order[1..]); }
  }

  /** Evicting the oldest unpinned entry and cutting the rest cuts one more from the whole. */
  lemma EvictThenCut(s: Store, order: seq<Digest>, n: nat, needed: nat, max: nat)
    requires Accounted(s) && order != [] && order[0] in s.blobs && !Pinned(s, order[0])
    requires s.bytesUsed + needed > max
    requires Cut(Evict(s, order[0]), Unpinned(Evict(s, order[0]), order[1..]), n, needed, max)
    requires Sweep(Evict(s, order[0]), order[1..], needed, max)
          == RemoveFirst(Evict(s, order[0]), Unpinned(Evict(s, order[0]), order[1..]), n)
    ensures Cut(s, Unpinned(s, order), n + 1, needed, max)
    ensures Sweep(s, order, needed, max) == RemoveFirst(s, Unpinned(s, order), n + 1)
  {
    var free := Unpinned(s, order);
    var s' := Evict(s, order[0]);
    EvictKeepsPins(s, order[0], order[1..]);
    assert free[0] == order[0] && free[1..] == Unpinned(s', order[1..]);
    EvictIsRemoval(s, order[0]);
    RemoveFirstNone(s, free);
    forall m | 0 <= m < |free| ensures RemoveFirst(s', free[1..], m) == RemoveFirst(s, free, m + 1) {
      RemovePrefixAfterFirst(s, free, m);
    }
    CutGrows(s, s', free, n, needed, max);
  }

  lemma RestIsSound(order: seq<Digest>, stored: set<Digest>)
    requires order != [] && ListSound(order, stored)
    ensures ListSound(order[1..], stored) && ListSound(order[1..], stored - {order[0]})
  {
  }

  /** The loop removes exactly a shortest sufficient prefix of the unpinned entries. */
  lemma {:induction false} SweepIsCut(s: Store, order: seq<Digest>, needed: nat, max: nat) returns (n: nat)
    requires Accounted(s) && ListSound(order, s.blobs.Keys)
    ensures Cut(s, Unpinned(s, order), n, needed, max)
    ensures Sweep(s, order, needed, max) == RemoveFirst(s, Unpinned(s, order), n)
    decreases |order|
  {
    if order == [] || s.bytesUsed + needed <= max {
      n := 0;
      RemoveFirstNone(s, Unpinned(s, order));
    } else if Pinned(s, order[0]) {
      RestIsSound(order, s.blobs.Keys);
      n := SweepIsCut(s, order[1..], needed, max);
    } else {
      var rest := order[1..];
      RestIsSound(order, s.blobs.Keys);
      assert Evict(s, order[0]).blobs.Keys == s.blobs.Keys - {order[0]};
      EvictIsRemoval(s, order[0]);
      n := SweepIsCut(Evict(s, order[0]), rest, needed, max);
      EvictThenCut(s, order, n, needed, max);
      n := n + 1;
    }
  }

  // ---------------------------------------------------------------- what a reservation does

  lemma RemovingUnpinnedLeavesPinned(s: Store, order: seq<Digest>)
    requires s.lastUsed.Keys == s.blobs.Keys && LruOrder(order, s.lastUsed)
    ensures RemoveAll(s, Elements(Unpinned(s, order))).bytesUsed == PinnedBytes(s)
  {
    var free := Elements(Unpinned(s, order));
    forall sha | sha in s.blobs ensures sha in free <==> !Pinned(s, sha) {
      assert sha in s.lastUsed;
      UnpinnedMembers(s, order, sha);
    }
    assert s.blobs - free == s.blobs - (set sha | sha in s.blobs && !Pinned(s, sha));
  }

  lemma RemovingMoreLeavesLess(s: Store, few: set<Digest>, many: set<Digest>)
    requires few <= many
    ensures RemoveAll(s, many).bytesUsed <= RemoveAll(s, few).bytesUsed
  {
    TotalSubmap(s.blobs - many, s.blobs - few, Length);
  }

  /** A cut prefix makes room exactly when removing everything unpinned would. */
  lemma CutFitsIffAllFits(s: Store, free: seq<Digest>, n: nat, needed: nat, max: nat)
    requires Cut(s, free, n, needed, max)
    ensures RemoveFirst(s, free, n).bytesUsed + needed <= max <==>
              RemoveAll(s, Elements(free)).bytesUsed + needed <= max
  {
    if n == |free| {
      assert free[..n] == free;
    } else {
      forall sha | sha in Elements(free[..n]) ensures sha in Elements(free) {}
      RemovingMoreLeavesLess(s, Elements(free[..n]), Elements(free));
    }
  }

  /** The reservation, seen through the reference: how many of the unpinned entries go. */
  lemma ReserveIsCut(s: Store, order: seq<Digest>, needed: nat, max: nat) returns (n: nat)
    requires Accounted(s) && s.lastUsed.Keys == s.blobs.Keys && LruOrder(order, s.lastUsed) && needed <= max / 4
    ensures Cut(s, Unpinned(s, order), n, needed, max)
    ensures Reserve(s, order, needed, max)
         == (RemoveFirst(s, Unpinned(s, order), n), RemoveFirst(s, Unpinned(s, order), n).bytesUsed + needed <= max)
  {
    if s.bytesUsed + needed <= max {
      n := 0;
      RemoveFirstNone(s, Unpinned(s, order));
    } else {
      assert ListSound(order, s.blobs.Keys);
      n := SweepIsCut(s, order, needed, max);
    }
  }

  /**
   Main result: `reserve_space` is exact LRU.  It succeeds exactly when the request is within a quarter
   of the budget and fits beside the pinned blobs; what it removes is the shortest prefix of the
   unpinned entries, oldest first, that makes room; everything else of the store is as it was.
   */
  lemma ReserveIsExactLru(s: Store, order: seq<Digest>, needed: nat, max: nat)
    requires Consistent(s) && LruOrder(order, s.lastUsed)
    ensures Reserve(s, order, needed, max).1 <==> needed <= max / 4 && PinnedBytes(s) + needed <= max
    ensures Consistent(Reserve(s, order, needed, max).0)
    ensures needed > max / 4 ==> Reserve(s, order, needed, max).0 == s
    ensures needed <= max / 4 ==>
              exists n: nat :: Cut(s, Unpinned(s, order), n, needed, max)
                            && Reserve(s, order, needed, max).0 == RemoveFirst(s, Unpinned(s, order), n)
  {
    if needed <= max / 4 {
      var free := Unpinned(s, order);
      var n := ReserveIsCut(s, order, needed, max);
      RemovingUnpinnedLeavesPinned(s, order);
      CutFitsIffAllFits(s, free, n, needed, max);
      forall sha | sha in Elements(free[..n]) ensures !Pinned(s, sha) {
        assert sha in free;
        UnpinnedMembers(s, order, sha);
      }
      RemovalKeepsConsistent(s, Elements(free[..n]));
    }
  }

  /** The survivors: no pinned blob is removed, and no unpinned survivor is older than any victim. */
  lemma SurvivorsAreRecentOrPinned(s: Store, order: seq<Digest>, needed: nat, max: nat, victim: Digest,
                                   survivor: Digest)
    requires Consistent(s) && LruOrder(order, s.lastUsed)
    requires victim in s.blobs && victim !in Reserve(s, order, needed, max).0.blobs
    requires survivor in Reserve(s, order, needed, max).0.blobs
    ensures !Pinned(s, victim)
    ensures survivor in s.blobs && (Pinned(s, survivor) || s.lastUsed[victim] <= s.lastUsed[survivor])
  {
    var free := Unpinned(s, order);
    var n := ReserveIsCut(s, order, needed, max);
    UnpinnedMembers(s, order, victim);
    UnpinnedMembers(s, order, survivor);
    assert victim in free[..n] && survivor !in free[..n];
    if !Pinned(s, survivor) {
      assert survivor in s.lastUsed && survivor in free;
      var i, j := SplitPositions(free, n, victim, survivor);
      UnpinnedKeepsOrder(s, order, s.lastUsed, i, j);
    }
  }

  lemma SplitPositions(list: seq<Digest>, n: nat, early: Digest, late: Digest) returns (i: nat, j: nat)
    requires n <= |list| && early in list[..n] && late in list && late !in list[..n]
    ensures i < n <= j < |list| && list[i] == early && list[j] == late
  {
    i :| 0 <= i < |list[..n]| && list[..n][i] == early;
    assert list == list[..n] + list[n..];
    var k :| 0 <= k < |list[n..]| && list[n..][k] == late;
    j := n + k;
  }

  lemma {:induction false} UnpinnedKeepsOrder(s: Store, order: seq<Digest>, lastUsed: map<Digest, Instant>, i: nat,
                                              j: nat)
    requires forall k :: 0 <= k < |order| ==> order[k] in lastUsed
    requires forall k, l :: 0 <= k < l < |order| ==> lastUsed[order[k]] <= lastUsed[order[l]]
    requires i < j < |Unpinned(s, order)|
    ensures Unpinned(s, order)[i] in lastUsed && Unpinned(s, order)[j] in lastUsed
    ensures lastUsed[Unpinned(s, order)[i]] <= lastUsed[Unpinned(s, order)[j]]
  {
    var rest := Unpinned(s, order[1..]);
    if Pinned(s, order[0]) {
      UnpinnedKeepsOrder(s, order[1..], lastUsed, i, j);
    } else if i > 0 {
      UnpinnedKeepsOrder(s, order[1..], lastUsed, i - 1, j - 1);
    } else {
      var sha := rest[j - 1];
      UnpinnedMembers(s, order[1..], sha);
      var k :| 0 <= k < |order[1..]| && order[1..][k] == sha;
      assert order[k + 1] == sha;
    }
  }

  // ---------------------------------------------------------------- the other atomic steps

  /** Lines after a good fill: keep the blob if it is new, note its use, put it first in the path's list. */
  function Publish(s: Store, path: Path, sha: Digest, body: Bytes, now: Instant): Store {
    s.(blobs := if sha in s.blobs then s.blobs else s.blobs[sha := body],
       bytesUsed := if sha in s.blobs then s.bytesUsed else s.bytesUsed + |body|,
       lastUsed := s.lastUsed[sha := now],
       index := s.index[path := [sha] + Without(Known(s, path), {sha})])
  }

  /** `serve_blob` up to the read: `None` if the file is gone. */
  function Pin(s: Store, sha: Digest, now: Instant): Option<Store> {
    if sha !in s.blobs then None
    else Some(s.(refcounts := s.refcounts[sha := Pins(s, sha) + 1], lastUsed := s.lastUsed[sha := now]))
  }

  /** `serve_blob` after the read. */
  function Unpin(s: Store, sha: Digest): Store {
    if Pinned(s, sha) then s.(refcounts := s.refcounts[sha := Pins(s, sha) - 1]) else s
  }

  /** Whoever finds the path free takes the lead. */
  function Claim(s: Store, path: Path, token: Token): (Store, bool) {
    if path in s.inflight then (s, false) else (s.(inflight := s.inflight[path := token]), true)
  }

  function ReleaseLead(s: Store, path: Path): Store {
    s.(inflight := s.inflight - {path})
  }

  lemma PublishedListIsSound(list: seq<Digest>, sha: Digest, stored: set<Digest>)
    requires ListSound(list, stored)
    ensures ListSound([sha] + Without(list, {sha}), stored + {sha})
  {
    var kept := Without(list, {sha});
    WithoutKeepsNoDuplicates(list, {sha});
    forall x | x in kept ensures x in stored && x != sha {
      WithoutMembers(list, {sha}, x);
    }
  }

  lemma PublishKeepsBytes(s: Store, path: Path, sha: Digest, body: Bytes, now: Instant)
    requires Accounted(s)
    ensures Accounted(Publish(s, path, sha, body, now))
  {
    if sha !in s.blobs {
      TotalAdd(s.blobs, Length, sha, body);
    }
  }

  lemma PublishKeepsConsistent(s: Store, path: Path, sha: Digest, body: Bytes, now: Instant)
    requires Consistent(s)
    ensures Consistent(Publish(s, path, sha, body, now))
  {
    var s' := Publish(s, path, sha, body, now);
    PublishKeepsBytes(s, path, sha, body, now);
    PublishedListIsSound(Known(s, path), sha, s.blobs.Keys);
    assert s'.blobs.Keys == s.blobs.Keys + {sha};
    assert forall x :: Pinned(s', x) <==> Pinned(s, x);
  }

  lemma PinKeepsConsistent(s: Store, sha: Digest, now: Instant)
    requires Consistent(s) && sha in s.blobs
    ensures Consistent(Pin(s, sha, now).value)
  {
    var s' := Pin(s, sha, now).value;
    assert forall x :: Pinned(s', x) ==> x == sha || Pinned(s, x);
  }

  lemma UnpinKeepsConsistent(s: Store, sha: Digest)
    requires Consistent(s)
    ensures Consistent(Unpin(s, sha))
  {
    var s' := Unpin(s, sha);
    assert forall x :: Pinned(s', x) ==> Pinned(s, x);
  }

  lemma LeadKeepsConsistent(s: Store, path: Path, token: Token)
    requires Consistent(s)
    ensures Consistent(Claim(s, path, token).0) && Consistent(ReleaseLead(s, path))
  {
    assert forall x :: Pinned(Claim(s, path, token).0, x) <==> Pinned(s, x);
    assert forall x :: Pinned(ReleaseLead(s, path), x) <==> Pinned(s, x);
  }

  // ---------------------------------------------------------------- bodies and entity tags

  datatype Chunk = Data(bytes: Bytes) | Broken

  function Concat(chunks: seq<Chunk>): Bytes {
    if chunks == [] then []
    else Concat(chunks[..|chunks| - 1]) + (if chunks[|chunks| - 1].Data? then chunks[|chunks| - 1].bytes else [])
  }

  /** The stream delivered every byte. */
  predicate Whole(chunks: seq<Chunk>) {
    Broken !in chunks
  }

  datatype FillOutcome =
    | Aborted                  // the stream broke, or the tag does not match the bytes
    | Uncached(body: Bytes)    // answered but not kept
    | Stored(body: Bytes)      // answered and kept

  /** What a complete body is worth to the cache. */
  function Classify(sha256: Bytes -> Digest, max: nat, etag: Option<Digest>, body: Bytes): FillOutcome {
    if |body| > max / 4 then Uncached(body)
    else if etag.None? then Uncached(body)
    else if etag.value != sha256(body) then Aborted
    else Stored(body)
  }

  function FillBody(sha256: Bytes -> Digest, max: nat, etag: Option<Digest>, chunks: seq<Chunk>): FillOutcome {
    if Whole(chunks) then Classify(sha256, max, etag, Concat(chunks)) else Aborted
  }

  predicate IsQuote(c: char) {
    c == '"'
  }

  /** `trim().trim_matches('"')` on the ETag header. */
  function StripEtag(header: string): string {
    Trim(Trim(header, IsWhitespace), IsQuote)
  }

  /** The strong entity-tag of section 8.8.3 of RFC 9110, as validators and answers carry it. */
  function Quote(tag: string): string {
    ['"'] + tag + ['"']
  }

  function Quotes(n: nat): string {
    seq(n, _ => '"')
  }

  /**
   What is left of any header: with white space around it and quotes inside that, however many on each side, the
   tag between them.
   */
  lemma StripEtagExactly(before: string, m: nat, tag: string, n: nat, after: string)
    requires (forall c <- before :: IsWhitespace(c)) && (forall c <- after :: IsWhitespace(c))
    requires tag != [] ==> !IsQuote(tag[0]) && !IsQuote(tag[|tag| - 1])
    requires m > 0 || (tag != [] && !IsWhitespace(tag[0]))
    requires n > 0 || (tag != [] && !IsWhitespace(tag[|tag| - 1]))
    ensures StripEtag(before + (Quotes(m) + tag + Quotes(n)) + after) == tag
  {
    var core := Quotes(m) + tag + Quotes(n);
    assert core[0] == if m > 0 then '"' else tag[0];
    assert core[|core| - 1] == if n > 0 then '"' else tag[|tag| - 1];
    TrimAround(before, core, after, IsWhitespace);
    if tag == [] {
      TrimEverything(core, IsQuote);
    } else {
      TrimAround(Quotes(m), tag, Quotes(n), IsQuote);
    }
  }

  /** A quoted tag comes back as the tag, whatever white space surrounds it, for every tag without a quote in it. */
  lemma StripEtagInvertsQuote(before: string, tag: string, after: string)
    requires '"' !in tag && (forall c <- before :: IsWhitespace(c)) && (forall c <- after :: IsWhitespace(c))
    ensures StripEtag(before + Quote(tag) + after) == tag
  {
    assert Quotes(1) == ['"'] && Quotes(1) + tag + Quotes(1) == Quote(tag);
    if tag != [] {
      assert tag[0] in tag && tag[|tag| - 1] in tag;
    }
    StripEtagExactly(before, 1, tag, 1, after);
  }
}
