/**
 `ArtifactCache` as the object it is: fields updated in place, an eviction loop, a chunk
 loop, a directory walk.  Every method is proved against the functions of `ArtifactStore`.
 The blob directory is the field `blobs`; file operations succeed.
 */
module ArtifactCache {
  import opened ArtifactStore
  import opened Text
  import opened Totals
  import opened Wrappers

  const U64_MAX: nat := 0xFFFF_FFFF_FFFF_FFFF

  type U64 = n: nat | n <= U64_MAX

  function SaturatingAdd(a: nat, b: nat): nat {
    if a + b > U64_MAX then U64_MAX else a + b
  }

  datatype FileEntry = FileEntry(name: string, isFile: bool, content: Bytes)
  datatype PrefixEntry = PrefixEntry(isDir: bool, files: seq<FileEntry>)

  /** A directory entry that counts as a blob: a plain file named by 64 hex digits. */
  predicate IsBlobFile(f: FileEntry) {
    f.isFile && |f.name| == 64 && forall c <- f.name :: IsHexDigit(c)
  }

  function BlobFiles(files: seq<FileEntry>): seq<FileEntry> {
    if files == [] then []
    else BlobFiles(files[..|files| - 1]) + (if IsBlobFile(files[|files| - 1]) then [files[|files| - 1]] else [])
  }

  function AllBlobFiles(dir: seq<PrefixEntry>): seq<FileEntry> {
    if dir == [] then []
    else AllBlobFiles(dir[..|dir| - 1]) + (if dir[|dir| - 1].isDir then BlobFiles(dir[|dir| - 1].files) else [])
  }

  function TotalLength(files: seq<FileEntry>): nat {
    if files == [] then 0 else TotalLength(files[..|files| - 1]) + |files[|files| - 1].content|
  }

  function Stamp(files: seq<FileEntry>, now: Instant): map<Digest, Instant> {
    if files == [] then map[] else Stamp(files[..|files| - 1], now)[Digest(files[|files| - 1].name) := now]
  }

  /** The answer of the upstream server to one conditional request. */
  datatype Reply =
    | NoAnswer
    | NotModified
    | Refusal(status: nat)
    | Success(etag: Option<string>, contentLength: nat, chunks: seq<Chunk>)

  datatype Response =
    | Ok(body: Bytes, etag: Option<Digest>)
    | Streamed(chunks: seq<Chunk>)
    | Relayed(status: nat)
    | BlobMissing

  datatype FillError = UpstreamFailed

  function ParseEtag(header: Option<string>): Option<Digest> {
    if header.Some? then Some(Digest(StripEtag(header.value))) else None
  }

  /** `fill_once` from the answer on, as one function of the store. */
  ghost function FillOnceSpec(sha256: Bytes -> Digest, max: nat, s: Store, path: Path, known: seq<Digest>, reply: Reply,
                        order: seq<Digest>, now: Instant): (Store, Result<Response, FillError>)
  {
    match reply
    case NoAnswer => (s, Failure(UpstreamFailed))
    case NotModified =>
      if known == [] || known[0] !in s.blobs then (s, Result.Success(BlobMissing))
      else (Unpin(Pin(s, known[0], now).value, known[0]), Result.Success(Ok(s.blobs[known[0]], Some(known[0]))))
    case Refusal(status) => (s, Result.Success(Relayed(status)))
    case Success(etag, contentLength, chunks) =>
      var (reserved, room) := if contentLength > 0 then Reserve(s, order, contentLength, max) else (s, true);
      if !room then (reserved, Result.Success(Streamed(chunks)))
      else
        match FillBody(sha256, max, ParseEtag(etag), chunks)
        case Aborted => (reserved, Failure(UpstreamFailed))
        case Uncached(body) => (reserved, Result.Success(Ok(body, None)))
        case Stored(body) =>
          (Publish(reserved, path, sha256(body), body, now), Result.Success(Ok(body, Some(sha256(body)))))
  }

  class ArtifactCache {
    const maxBytes: U64
    const sha256: Bytes -> Digest

    var index: map<Path, seq<Digest>>
    var inflight: map<Path, Token>
    var refcounts: map<Digest, nat>
    var lastUsed: map<Digest, Instant>
    var bytesUsed: nat
    var blobs: map<Digest, Bytes>

    function View(): Store
      reads this
    {
      Store(index, inflight, refcounts, lastUsed, bytesUsed, blobs)
    }

    /** A fresh cache over whatever blobs the directory holds. */
    constructor (maxBytes: U64, sha256: Bytes -> Digest, blobs: map<Digest, Bytes>)
      ensures View() == Store(map[], map[], map[], map[], 0, blobs)
      ensures this.maxBytes == maxBytes && this.sha256 == sha256
    {
      this.maxBytes := maxBytes;
      this.sha256 := sha256;
      this.index, this.inflight, this.refcounts, this.lastUsed, this.bytesUsed, this.blobs :=
        map[], map[], map[], map[], 0, blobs;
    }

    method Bootstrap(dir: seq<PrefixEntry>, now: Instant)
      requires lastUsed == map[]
      modifies this`lastUsed, this`bytesUsed
      ensures bytesUsed == TotalLength(AllBlobFiles(dir))
      ensures lastUsed == Stamp(AllBlobFiles(dir), now)
    {
      var total := 0;
      for i := 0 to |dir|
        invariant total == TotalLength(AllBlobFiles(dir[..i]))
        invariant lastUsed == Stamp(AllBlobFiles(dir[..i]), now)
      {
        AllBlobFilesNext(dir, i);
        if !dir[i].isDir { continue; }
        total := ScanPrefix(dir[i].files, total, AllBlobFiles(dir[..i]), now);
      }
      assert dir[..|dir|] == dir;
      bytesUsed := total;
    }

    /** The walk through one prefix directory; `before` are the files already counted. */
    method ScanPrefix(files: seq<FileEntry>, counted: nat, ghost before: seq<FileEntry>, now: Instant)
        returns (total: nat)
      requires counted == TotalLength(before) && lastUsed == Stamp(before, now)
      modifies this`lastUsed
      ensures total == TotalLength(before + BlobFiles(files))
      ensures lastUsed == Stamp(before + BlobFiles(files), now)
    {
      total := counted;
      assert before + [] == before;
      for j := 0 to |files|
        invariant total == TotalLength(before + BlobFiles(files[..j]))
        invariant lastUsed == Stamp(before + BlobFiles(files[..j]), now)
      {
        var file := files[j];
        BlobFilesNext(before, files, j);
        if !file.isFile { continue; }
        if |file.name| == 64 && forall c <- file.name :: IsHexDigit(c) {
          AppendFile(before + BlobFiles(files[..j]), file, now);
          total := total + |file.content|;
          lastUsed := lastUsed[Digest(file.name) := now];
        }
      }
      assert files[..|files|] == files;
    }

    /** The entries collected and sorted by last use, in whatever order ties come. */
    method SortedEntries() returns (order: seq<Digest>)
      ensures LruOrder(order, lastUsed)
    {
      order := [];
      var pending := lastUsed.Keys;
      while pending != {}
        invariant pending <= lastUsed.Keys
        invariant LruOrder(order, lastUsed - pending)
        decreases |pending|
      {
        var sha :| sha in pending;
        assert sha !in lastUsed - pending && (lastUsed - pending)[sha := lastUsed[sha]] == lastUsed - (pending - {sha});
        ghost var seen := lastUsed - pending;
        forall i | 0 <= i < |order| ensures order[i] in seen {
          assert order[i] in order;
        }
        pending := pending - {sha};
        var at := 0;
        while at < |order| && lastUsed[order[at]] <= lastUsed[sha]
          invariant 0 <= at <= |order|
          invariant forall i :: 0 <= i < at ==> seen[order[i]] <= lastUsed[sha]
        {
          at := at + 1;
        }
        InsertKeepsOrder(order, at, sha, seen, lastUsed[sha]);
        order := order[..at] + [sha] + order[at..];
      }
    }

    /** Every path's list without the digest. */
    method ForgetDigest(sha: Digest)
      modifies this`index
      ensures index == DropFrom(old(index), {sha})
    {
      var pending := index.Keys;
      ghost var wanted := DropFrom(index, {sha});
      while pending != {}
        invariant pending <= index.Keys == wanted.Keys == old(index).Keys
        invariant forall path <- pending :: index[path] == old(index)[path]
        invariant forall path | path in index && path !in pending :: index[path] == wanted[path]
        decreases |pending|
      {
        var path :| path in pending;
        pending := pending - {path};
        index := index[path := Without(index[path], {sha})];
      }
    }

    /** The file, its size, its last use and its index entries go. */
    method EvictBlob(sha: Digest)
      requires sha in blobs
      modifies this`blobs, this`bytesUsed, this`lastUsed, this`index
      ensures View() == Evict(old(View()), sha)
    {
      ghost var before := View();
      ForgetDigest(sha);
      var len := |blobs[sha]|;
      blobs := blobs - {sha};
      bytesUsed := if bytesUsed >= len then bytesUsed - len else 0;
      lastUsed := lastUsed - {sha};
      assert Evict(before, sha).index == index;
    }

    /** `order` is the sorted order of the entries, where eviction was needed. */
    method ReserveSpace(needed: nat) returns (room: bool, ghost order: seq<Digest>)
      modifies this
      ensures (View(), room) == Reserve(old(View()), order, needed, maxBytes)
      ensures needed <= maxBytes / 4 && old(bytesUsed) + needed > maxBytes ==> LruOrder(order, old(lastUsed))
    {
      order := [];
      if needed > maxBytes / 4 {
        return false, order;
      }
      var used := bytesUsed;
      if used + needed <= maxBytes {
        return true, order;
      }
      var entries := SortedEntries();
      order := entries;
      ghost var swept := Sweep(View(), entries, needed, maxBytes);
      for i := 0 to |entries|
        invariant used == bytesUsed
        invariant Sweep(View(), entries[i..], needed, maxBytes) == swept
      {
        assert entries[i..][0] == entries[i] && entries[i..][1..] == entries[i + 1..];
        var sha := entries[i];
        if used + needed <= maxBytes {
          assert Sweep(View(), entries[i + 1..], needed, maxBytes) == View();
          continue;
        }
        if sha in refcounts && refcounts[sha] > 0 {
          continue;
        }
        if sha in blobs {
          EvictBlob(sha);
          used := bytesUsed;
        }
      }
      room := used + needed <= maxBytes;
    }

    /** The chunk loop: hash and keep the chunks, give up keeping once past a quarter of the budget. */
    method CollectBody(etag: Option<Digest>, chunks: seq<Chunk>) returns (outcome: FillOutcome)
      ensures outcome == FillBody(sha256, maxBytes, etag, chunks)
    {
      var hashed: Bytes := [];
      var collected: seq<Bytes> := [];
      var total := 0;
      var i := 0;
      while i < |chunks|
        invariant 0 <= i <= |chunks|
        invariant Whole(chunks[..i])
        invariant hashed == Flatten(collected) == Concat(chunks[..i])
        invariant total == |hashed| <= maxBytes / 4
      {
        NextChunk(chunks, i);
        if chunks[i].Broken? {
          return Aborted;
        }
        var chunk := chunks[i].bytes;
        total := SaturatingAdd(total, |chunk|);
        FlattenAppend(collected, chunk);
        collected := collected + [chunk];
        i := i + 1;
        if total > maxBytes / 4 {
          ConcatGrows(chunks, i);
          var body := CollectRest(chunks, i, collected);
          return if body.None? then Aborted else Uncached(body.value);
        }
        hashed := hashed + chunk;
      }
      assert chunks[..i] == chunks;
      var digest := sha256(hashed);
      if etag.None? {
        return Uncached(Flatten(collected));
      }
      if etag.value != digest {
        return Aborted;
      }
      outcome := Stored(Flatten(collected));
    }

    /** The rest of a body too large to keep: all of it, `None` if the stream breaks. */
    method CollectRest(chunks: seq<Chunk>, start: nat, begun: seq<Bytes>) returns (body: Option<Bytes>)
      requires start <= |chunks| && Whole(chunks[..start]) && Flatten(begun) == Concat(chunks[..start])
      ensures body == if Whole(chunks) then Some(Concat(chunks)) else None
    {
      var collected := begun;
      var i := start;
      while i < |chunks|
        invariant start <= i <= |chunks|
        invariant Whole(chunks[..i])
        invariant Flatten(collected) == Concat(chunks[..i])
      {
        NextChunk(chunks, i);
        if chunks[i].Broken? {
          return None;
        }
        FlattenAppend(collected, chunks[i].bytes);
        collected := collected + [chunks[i].bytes];
        i := i + 1;
      }
      assert chunks[..i] == chunks;
      body := Some(Flatten(collected));
    }

    method PublishBlob(path: Path, sha: Digest, body: Bytes, now: Instant)
      modifies this
      ensures View() == Publish(old(View()), path, sha, body, now)
    {
      if sha !in blobs {
        blobs := blobs[sha := body];
        bytesUsed := bytesUsed + |body|;
      }
      lastUsed := lastUsed[sha := now];
      var list := if path in index then index[path] else [];
      index := index[path := Without(list, {sha})];
      index := index[path := [sha] + index[path]];
    }

    /** Up to the read: whether the file is there, and then its pin. */
    method PinBlob(sha: Digest, now: Instant) returns (found: bool)
      modifies this
      ensures found <==> Pin(old(View()), sha, now).Some?
      ensures View() == if found then Pin(old(View()), sha, now).value else old(View())
    {
      if sha !in blobs {
        return false;
      }
      if sha !in refcounts {
        refcounts := refcounts[sha := 0];
      }
      refcounts := refcounts[sha := refcounts[sha] + 1];
      lastUsed := lastUsed[sha := now];
      found := true;
    }

    method UnpinBlob(sha: Digest)
      modifies this
      ensures View() == Unpin(old(View()), sha)
    {
      if sha in refcounts && refcounts[sha] > 0 {
        refcounts := refcounts[sha := refcounts[sha] - 1];
      }
    }

    method TakeLead(path: Path, token: Token) returns (becameLeader: bool)
      modifies this
      ensures (View(), becameLeader) == Claim(old(View()), path, token)
    {
      if path in inflight {
        return false;
      }
      inflight := inflight[path := token];
      becameLeader := true;
    }

    method DropLead(path: Path)
      modifies this
      ensures View() == ReleaseLead(old(View()), path)
    {
      inflight := inflight - {path};
    }

    /** One fill, run without interruption. */
    method FillOnce(path: Path, known: seq<Digest>, reply: Reply, now: Instant)
      returns (result: Result<Response, FillError>, ghost order: seq<Digest>)
      modifies this
      ensures (View(), result) == FillOnceSpec(sha256, maxBytes, old(View()), path, known, reply, order, now)
      ensures reply.Success? && 0 < reply.contentLength <= maxBytes / 4
              && old(bytesUsed) + reply.contentLength > maxBytes ==>
                LruOrder(order, old(lastUsed))
    {
      order := [];
      match reply {
        case NoAnswer => return Failure(UpstreamFailed), order;
        case NotModified =>
          if known != [] {
            var found := PinBlob(known[0], now);
            if found {
              var body := blobs[known[0]];
              UnpinBlob(known[0]);
              return Result.Success(Ok(body, Some(known[0]))), order;
            }
          }
          return Result.Success(BlobMissing), order;
        case Refusal(status) => return Result.Success(Relayed(status)), order;
        case Success(etag, contentLength, chunks) =>
          if contentLength > 0 {
            var room;
            room, order := ReserveSpace(contentLength);
            if !room {
              return Result.Success(Streamed(chunks)), order;
            }
          }
          var outcome := CollectBody(ParseEtag(etag), chunks);
          match outcome {
            case Aborted => return Failure(UpstreamFailed), order;
            case Uncached(body) => return Result.Success(Ok(body, None)), order;
            case Stored(body) =>
              PublishBlob(path, sha256(body), body, now);
              return Result.Success(Ok(body, Some(sha256(body)))), order;
          }
      }
    }
  }

  lemma AllBlobFilesNext(dir: seq<PrefixEntry>, i: nat)
    requires i < |dir|
    ensures AllBlobFiles(dir[..i + 1])
         == if dir[i].isDir then AllBlobFiles(dir[..i]) + BlobFiles(dir[i].files) else AllBlobFiles(dir[..i])
  {
    assert dir[..i + 1][..i] == dir[..i];
  }

  lemma BlobFilesNext(before: seq<FileEntry>, files: seq<FileEntry>, j: nat)
    requires j < |files|
    ensures IsBlobFile(files[j]) ==>
              before + BlobFiles(files[..j + 1]) == (before + BlobFiles(files[..j])) + [files[j]]
    ensures !IsBlobFile(files[j]) ==> before + BlobFiles(files[..j + 1]) == before + BlobFiles(files[..j])
  {
    assert files[..j + 1][..j] == files[..j];
  }

  lemma AppendFile(files: seq<FileEntry>, file: FileEntry, now: Instant)
    ensures TotalLength(files + [file]) == TotalLength(files) + |file.content|
    ensures Stamp(files + [file], now) == Stamp(files, now)[Digest(file.name) := now]
  {
    assert (files + [file])[..|files|] == files;
  }

  /** Sorted insertion. */
  lemma InsertKeepsOrder(order: seq<Digest>, at: nat, sha: Digest, seen: map<Digest, Instant>, when: Instant)
    requires LruOrder(order, seen) && at <= |order| && sha !in seen
    requires forall i :: 0 <= i < |order| ==> order[i] in seen
    requires forall i :: 0 <= i < at ==> seen[order[i]] <= when
    requires at < |order| ==> when <= seen[order[at]]
    ensures LruOrder(order[..at] + [sha] + order[at..], seen[sha := when])
  {
    InsertKeepsSorted(order, at, sha, seen, when);
    forall x ensures x in order[..at] + [sha] + order[at..] <==> x in seen[sha := when] {
      InsertMembers(order, at, sha, x);
    }
  }

  lemma InsertKeepsSorted(order: seq<Digest>, at: nat, sha: Digest, seen: map<Digest, Instant>, when: Instant)
    requires LruOrder(order, seen) && at <= |order| && sha !in seen
    requires forall i :: 0 <= i < |order| ==> order[i] in seen
    requires forall i :: 0 <= i < at ==> seen[order[i]] <= when
    requires at < |order| ==> when <= seen[order[at]]
    ensures var order', seen' := order[..at] + [sha] + order[at..], seen[sha := when];
            forall i, j :: 0 <= i < j < |order'| ==>
              order'[i] in seen' && order'[j] in seen' && order'[i] != order'[j] && seen'[order'[i]] <= seen'[order'[j]]
  {
    var order', seen' := order[..at] + [sha] + order[at..], seen[sha := when];
    forall i, j | 0 <= i < j < |order'|
      ensures order'[i] in seen' && order'[j] in seen' && order'[i] != order'[j] && seen'[order'[i]] <= seen'[order'[j]]
    {
      InsertAt(order, at, sha, i);
      InsertAt(order, at, sha, j);
      if i >= at && j - 1 > at {
        assert seen[order[at]] <= seen[order[j - 1]];
      }
    }
  }

  lemma InsertAt(order: seq<Digest>, at: nat, sha: Digest, i: nat)
    requires at <= |order| && i <= |order|
    ensures (order[..at] + [sha] + order[at..])[i] == if i < at then order[i] else if i == at then sha else order[i - 1]
  {
  }

  lemma InsertMembers(order: seq<Digest>, at: nat, sha: Digest, x: Digest)
    requires at <= |order|
    ensures x in order[..at] + [sha] + order[at..] <==> x in order || x == sha
  {
    assert order == order[..at] + order[at..];
  }

  lemma NextChunk(chunks: seq<Chunk>, i: nat)
    requires i < |chunks|
    ensures chunks[i].Broken? ==> !Whole(chunks)
    ensures chunks[i].Data? && Whole(chunks[..i]) ==> Whole(chunks[..i + 1])
    ensures chunks[i].Data? ==> Concat(chunks[..i + 1]) == Concat(chunks[..i]) + chunks[i].bytes
  {
    assert chunks[..i + 1][..i] == chunks[..i] && chunks[..i + 1] == chunks[..i] + [chunks[i]];
  }

  function Flatten(parts: seq<Bytes>): Bytes {
    if parts == [] then [] else Flatten(parts[..|parts| - 1]) + parts[|parts| - 1]
  }

  lemma FlattenAppend(parts: seq<Bytes>, part: Bytes)
    ensures Flatten(parts + [part]) == Flatten(parts) + part
  {
    assert (parts + [part])[..|parts|] == parts;
  }

  lemma {:induction false} ConcatGrows(chunks: seq<Chunk>, i: nat)
    requires i <= |chunks|
    ensures |Concat(chunks[..i])| <= |Concat(chunks)|
    decreases |chunks|
  {
    if i == |chunks| {
      assert chunks[..i] == chunks;
    } else {
      var init := chunks[..|chunks| - 1];
      assert init[..i] == chunks[..i];
      ConcatGrows(init, i);
    }
  }

  // ---------------------------------------------------------------- what a fill guarantees

  /** Whatever the chunks: a complete answer carries all of them, and only a tagged, affordable body is kept. */
  lemma FillKeepsOnlyTaggedBodies(sha256: Bytes -> Digest, max: nat, s: Store, path: Path, known: seq<Digest>,
                                  reply: Reply, order: seq<Digest>, now: Instant)
    requires reply.Success? && Whole(reply.chunks)
    ensures var (s', result) := FillOnceSpec(sha256, max, s, path, known, reply, order, now);
            var whole := Concat(reply.chunks);
            && (result.Success? ==> match result.value
                                    case Ok(body, _) => body == whole
                                    case Streamed(chunks) => Concat(chunks) == whole
                                    case _ => false)
            && (forall sha <- s'.blobs :: sha !in s.blobs || s'.blobs[sha] != s.blobs[sha] ==>
                  s'.blobs[sha] == whole && sha == sha256(whole) && |whole| <= max / 4
                  && ParseEtag(reply.etag) == Some(sha) && result == Result.Success(Ok(whole, Some(sha))))
  {
    SweepOnlyRemoves(s, order, reply.contentLength, max);
  }

  lemma {:induction false} SweepOnlyRemoves(s: Store, order: seq<Digest>, needed: nat, max: nat)
    ensures var s' := Sweep(s, order, needed, max);
            && (forall sha <- s'.blobs :: sha in s.blobs && s'.blobs[sha] == s.blobs[sha])
            && s'.refcounts == s.refcounts && s'.inflight == s.inflight && s'.bytesUsed <= s.bytesUsed
    decreases |order|
  {
    if order != [] && s.bytesUsed + needed > max {
      if Pinned(s, order[0]) || order[0] !in s.blobs {
        SweepOnlyRemoves(s, order[1..], needed, max);
      } else {
        SweepOnlyRemoves(Evict(s, order[0]), order[1..], needed, max);
      }
    }
  }

  /** A fill keeps the store consistent and every blob under the digest of its bytes. */
  lemma FillKeepsStore(sha256: Bytes -> Digest, max: nat, s: Store, path: Path, known: seq<Digest>, reply: Reply,
                       order: seq<Digest>, now: Instant)
    requires Consistent(s) && ContentAddressed(sha256, s) && LruOrder(order, s.lastUsed)
    ensures var s' := FillOnceSpec(sha256, max, s, path, known, reply, order, now).0;
            Consistent(s') && ContentAddressed(sha256, s') && s'.inflight == s.inflight
            && forall sha :: Pins(s', sha) == Pins(s, sha)
  {
    if reply.NotModified? {
      if known != [] && known[0] in s.blobs {
        ServeKeepsStore(s, known, now);
      }
    } else {
      BodyKeepsStore(sha256, max, s, path, known, reply, order, now);
    }
  }

  lemma BodyKeepsStore(sha256: Bytes -> Digest, max: nat, s: Store, path: Path, known: seq<Digest>, reply: Reply,
                       order: seq<Digest>, now: Instant)
    requires Consistent(s) && ContentAddressed(sha256, s) && LruOrder(order, s.lastUsed) && !reply.NotModified?
    ensures var s' := FillOnceSpec(sha256, max, s, path, known, reply, order, now).0;
            Consistent(s') && ContentAddressed(sha256, s') && s'.inflight == s.inflight && s'.refcounts == s.refcounts
  {
    if reply.Success? {
      ReserveKeepsStore(sha256, max, s, order, reply.contentLength);
      var reserved := if reply.contentLength > 0 then Reserve(s, order, reply.contentLength, max).0 else s;
      var outcome := FillBody(sha256, max, ParseEtag(reply.etag), reply.chunks);
      if outcome.Stored? {
        PublishKeepsStore(sha256, reserved, path, outcome.body, now);
      }
    }
  }

  lemma PublishKeepsStore(sha256: Bytes -> Digest, s: Store, path: Path, body: Bytes, now: Instant)
    requires Consistent(s) && ContentAddressed(sha256, s)
    ensures var s' := Publish(s, path, sha256(body), body, now);
            Consistent(s') && ContentAddressed(sha256, s') && s'.inflight == s.inflight && s'.refcounts == s.refcounts
  {
    PublishKeepsConsistent(s, path, sha256(body), body, now);
  }

  lemma ServeKeepsStore(s: Store, known: seq<Digest>, now: Instant)
    requires Consistent(s) && known != [] && known[0] in s.blobs
    ensures var s' := Unpin(Pin(s, known[0], now).value, known[0]);
            && Consistent(s') && s'.blobs == s.blobs && s'.inflight == s.inflight
            && forall sha :: Pins(s', sha) == Pins(s, sha)
  {
    PinKeepsConsistent(s, known[0], now);
    UnpinKeepsConsistent(Pin(s, known[0], now).value, known[0]);
  }

  lemma ReserveKeepsStore(sha256: Bytes -> Digest, max: nat, s: Store, order: seq<Digest>, needed: nat)
    requires Consistent(s) && ContentAddressed(sha256, s) && LruOrder(order, s.lastUsed)
    ensures var s' := Reserve(s, order, needed, max).0;
            Consistent(s') && ContentAddressed(sha256, s') && s'.inflight == s.inflight && s'.refcounts == s.refcounts
  {
    ReserveIsExactLru(s, order, needed, max);
    SweepOnlyRemoves(s, order, needed, max);
  }

  // ---------------------------------------------------------------- how a fill ends, answer by answer

  /** No blob and no list gained anything. */
  predicate NothingPublished(s: Store, s': Store) {
    && (forall sha <- s'.blobs :: sha in s.blobs && s'.blobs[sha] == s.blobs[sha])
    && (forall path, sha | path in s'.index && sha in s'.index[path] :: sha in Known(s, path))
  }

  /** Room is refused to a declared length exactly so. */
  ghost predicate NoRoom(s: Store, declared: nat, max: nat) {
    declared > 0 && (declared > max / 4 || PinnedBytes(s) + declared > max)
  }

  lemma SweepPublishesNothing(s: Store, order: seq<Digest>, needed: nat, max: nat)
    requires Consistent(s) && LruOrder(order, s.lastUsed)
    ensures NothingPublished(s, Reserve(s, order, needed, max).0)
  {
    SweepOnlyRemoves(s, order, needed, max);
    if needed <= max / 4 {
      var n := ReserveIsCut(s, order, needed, max);
      var gone := Elements(Unpinned(s, order)[..n]);
      var s' := Reserve(s, order, needed, max).0;
      forall path, sha | path in s'.index && sha in s'.index[path] ensures sha in Known(s, path) {
        WithoutMembers(s.index[path], gone, sha);
      }
    }
  }

  /** The cases without a body. */
  lemma BodilessAnswersExactly(sha256: Bytes -> Digest, max: nat, s: Store, path: Path, known: seq<Digest>,
                               reply: Reply, order: seq<Digest>, now: Instant)
    requires Consistent(s) && !reply.Success?
    ensures var (s', result) := FillOnceSpec(sha256, max, s, path, known, reply, order, now);
            && (reply.NoAnswer? ==> result == Failure(UpstreamFailed) && s' == s)
            && (reply.Refusal? ==> result == Result.Success(Relayed(reply.status)) && s' == s)
            && (reply.NotModified? && (known == [] || known[0] !in s.blobs) ==>
                  result == Result.Success(BlobMissing) && s' == s)
            && (reply.NotModified? && known != [] && known[0] in s.blobs ==>
                  && result == Result.Success(Ok(s.blobs[known[0]], Some(known[0])))
                  && s'.blobs == s.blobs && s'.index == s.index && s'.lastUsed == s.lastUsed[known[0] := now])
  {
  }

  /** The bytes of the chunks up to where the stream broke, or all of them. */
  lemma FillBodyCases(sha256: Bytes -> Digest, max: nat, etag: Option<Digest>, chunks: seq<Chunk>)
    ensures Broken in chunks ==> FillBody(sha256, max, etag, chunks) == Aborted
    ensures Broken !in chunks ==>
              var body := Concat(chunks);
              && (|body| > max / 4 || etag == None ==> FillBody(sha256, max, etag, chunks) == Uncached(body))
              && (|body| <= max / 4 && etag == Some(sha256(body)) ==>
                    FillBody(sha256, max, etag, chunks) == Stored(body))
              && (|body| <= max / 4 && etag.Some? && etag != Some(sha256(body)) ==>
                    FillBody(sha256, max, etag, chunks) == Aborted)
  {
  }

  lemma AdmittedOrNot(s: Store, order: seq<Digest>, declared: nat, max: nat)
    requires Consistent(s) && LruOrder(order, s.lastUsed)
    ensures var (reserved, room) := if declared > 0 then Reserve(s, order, declared, max) else (s, true);
            && NothingPublished(s, reserved) && Consistent(reserved) && (room <==> !NoRoom(s, declared, max))
  {
    ReserveIsExactLru(s, order, declared, max);
    SweepPublishesNothing(s, order, declared, max);
  }

  /** A body refused room is streamed on and not kept. */
  lemma UnadmittedBodies(sha256: Bytes -> Digest, max: nat, s: Store, path: Path, known: seq<Digest>, reply: Reply,
                         order: seq<Digest>, now: Instant)
    requires Consistent(s) && LruOrder(order, s.lastUsed) && reply.Success? && NoRoom(s, reply.contentLength, max)
    ensures var (s', result) := FillOnceSpec(sha256, max, s, path, known, reply, order, now);
            result == Result.Success(Streamed(reply.chunks)) && NothingPublished(s, s')
  {
    AdmittedOrNot(s, order, reply.contentLength, max);
  }

  /**
   Main result: how a body that was given room ends, for every chunk sequence and tag.  A broken stream fails; a
   body past a quarter of the budget, or without a tag, is answered and not kept; a body whose tag is its digest is
   answered, stored, dated and put first in the path's list; any other tag fails.
   */
  lemma BodyAnswersExactly(sha256: Bytes -> Digest, max: nat, s: Store, path: Path, known: seq<Digest>, reply: Reply,
                           order: seq<Digest>, now: Instant)
    requires Consistent(s) && ContentAddressed(sha256, s) && Injective(sha256) && LruOrder(order, s.lastUsed)
    requires reply.Success? && !NoRoom(s, reply.contentLength, max)
    ensures var (s', result) := FillOnceSpec(sha256, max, s, path, known, reply, order, now);
            var body, tag := Concat(reply.chunks), ParseEtag(reply.etag);
            && (Broken in reply.chunks ==> result == Failure(UpstreamFailed) && NothingPublished(s, s'))
            && (Broken !in reply.chunks && (|body| > max / 4 || tag == None) ==>
                  result == Result.Success(Ok(body, None)) && NothingPublished(s, s'))
            && (Broken !in reply.chunks && |body| <= max / 4 && tag == Some(sha256(body)) ==>
                  && result == Result.Success(Ok(body, tag))
                  && sha256(body) in s'.blobs && s'.blobs[sha256(body)] == body
                  && sha256(body) in s'.lastUsed && s'.lastUsed[sha256(body)] == now
                  && Known(s', path) != [] && Known(s', path)[0] == sha256(body))
            && (Broken !in reply.chunks && |body| <= max / 4 && tag.Some? && tag != Some(sha256(body)) ==>
                  result == Failure(UpstreamFailed) && NothingPublished(s, s'))
  {
    AdmittedOrNot(s, order, reply.contentLength, max);
    FillBodyCases(sha256, max, ParseEtag(reply.etag), reply.chunks);
  }

  // ---------------------------------------------------------------- start-up

  lemma {:induction false} BlobFilesExactly(files: seq<FileEntry>, f: FileEntry)
    ensures f in BlobFiles(files) <==> f in files && f.isFile && |f.name| == 64 && forall c <- f.name :: IsHexDigit(c)
  {
    if files == [] {
    } else {
      var n := |files| - 1;
      BlobFilesExactly(files[..n], f);
      assert files == files[..n] + [files[n]];
    }
  }

  /** What the walk counts: exactly the plain files named by 64 hex digits in the directories directly below. */
  lemma {:induction false} WalkFindsExactly(dir: seq<PrefixEntry>, f: FileEntry)
    ensures f in AllBlobFiles(dir) <==>
              && f.isFile && |f.name| == 64 && (forall c <- f.name :: IsHexDigit(c))
              && exists i :: 0 <= i < |dir| && dir[i].isDir && f in dir[i].files
  {
    if dir == [] {
    } else {
      var n := |dir| - 1;
      WalkFindsExactly(dir[..n], f);
      BlobFilesExactly(dir[n].files, f);
      if i :| 0 <= i < n && dir[..n][i].isDir && f in dir[..n][i].files {
        assert dir[i] == dir[..n][i];
      }
      if i :| 0 <= i < |dir| && dir[i].isDir && f in dir[i].files {
        assert i < n ==> dir[..n][i] == dir[i];
      }
    }
  }

  /** The files are the blobs: each digest once, with its bytes. */
  ghost predicate Lists(files: seq<FileEntry>, blobs: map<Digest, Bytes>) {
    && (forall i, j :: 0 <= i < j < |files| ==> files[i].name != files[j].name)
    && (forall i :: 0 <= i < |files| ==>
          Digest(files[i].name) in blobs && blobs[Digest(files[i].name)] == files[i].content)
    && (forall sha <- blobs :: exists i :: 0 <= i < |files| && Digest(files[i].name) == sha)
  }

  lemma {:induction false} StampKeys(files: seq<FileEntry>, now: Instant, sha: Digest)
    ensures sha in Stamp(files, now) <==> exists i :: 0 <= i < |files| && Digest(files[i].name) == sha
    ensures sha in Stamp(files, now) ==> Stamp(files, now)[sha] == now
  {
    if files == [] {
    } else {
      var init := files[..|files| - 1];
      StampKeys(init, now, sha);
      if i :| 0 <= i < |files| && Digest(files[i].name) == sha {
        assert i < |init| ==> init[i] == files[i];
      }
      if i :| 0 <= i < |init| && Digest(init[i].name) == sha {
        assert files[i] == init[i];
      }
      assert sha == Digest(files[|files| - 1].name) ==> 0 <= |files| - 1 < |files|;
    }
  }

  lemma {:induction false} LengthsAddUp(files: seq<FileEntry>, blobs: map<Digest, Bytes>)
    requires Lists(files, blobs)
    ensures TotalLength(files) == StoredBytes(blobs)
    decreases |files|
  {
    if files == [] {
      assert blobs == map[];
    } else {
      var init, sha := files[..|files| - 1], Digest(files[|files| - 1].name);
      ListsInit(files, blobs);
      LengthsAddUp(init, blobs - {sha});
      TotalSplit(blobs, Length, sha);
    }
  }

  lemma ListsInit(files: seq<FileEntry>, blobs: map<Digest, Bytes>)
    requires Lists(files, blobs) && files != []
    ensures Lists(files[..|files| - 1], blobs - {Digest(files[|files| - 1].name)})
  {
    var init, sha := files[..|files| - 1], Digest(files[|files| - 1].name);
    var rest := blobs - {sha};
    forall i | 0 <= i < |init| ensures Digest(init[i].name) in rest && rest[Digest(init[i].name)] == init[i].content {
      assert init[i] == files[i];
    }
    forall x | x in rest ensures exists i :: 0 <= i < |init| && Digest(init[i].name) == x {
      var i :| 0 <= i < |files| && Digest(files[i].name) == x;
      assert init[i] == files[i];
    }
  }

  /**
   From a well-formed directory the walk leaves a consistent store: bytes counted, every blob dated, nothing indexed.
   */
  lemma BootstrapIsConsistent(dir: seq<PrefixEntry>, blobs: map<Digest, Bytes>, now: Instant)
    requires Lists(AllBlobFiles(dir), blobs)
    ensures Consistent(Store(map[], map[], map[], Stamp(AllBlobFiles(dir), now), TotalLength(AllBlobFiles(dir)), blobs))
  {
    var files := AllBlobFiles(dir);
    LengthsAddUp(files, blobs);
    forall sha ensures sha in Stamp(files, now) <==> sha in blobs {
      StampKeys(files, now, sha);
    }
  }
}
