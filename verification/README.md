# A verified model of the Propylaea proxy core

Propylaea is a stateful edge proxy between agents and the Hecate server. This project models its
state machines in Dafny and proves what they keep over whole runs: the artifact cache, the rate
limiter, the replay window, the identity and sync protocol, the request gates, and the path and
CIDR arithmetic they rest on. `dafny verify dfyconfig.toml` checks everything.

## How the project is laid out

| file | models | form |
|---|---|---|
| `ArtifactStore.dfy` | the cache fields and the blob directory as one value; eviction, publishing, pins | functions and lemmas |
| `ArtifactCache.dfy` | `ArtifactCache` and its methods, with the eviction loop, the chunk loop and the directory walk | a class proved against `ArtifactStore` |
| `CacheProtocol.dfy` | every interleaving of requests through the cache, with an upstream that keeps a history of versions for each path | a transition system over the same functions |
| `CacheSafety.dfy`, `CacheRecency.dfy`, `CacheAnswers.dfy`, `CacheTransparency.dfy`, `CacheStale.dfy`, `CacheBudget.dfy` | theorems about that system | invariants over runs |
| `RateLimit.dfy`, `RateHistory.dfy` | the fixed-window limiter of `state.rs`; its verdicts told from the events alone | a class, its specification, run theorems |
| `Nonces.dfy`, `Validate.dfy` | the replay cache; the signed-request check and the enroll precheck | a class, functions, run theorems |
| `Credentials.dfy`, `State.dfy`, `Sync.dfy`, `TornSync.dfy` | identity on disk, in memory and upstream; `AppState`; the exchanges of `sync.rs`; a sync seen half done | functions, a class, methods with the source's loops, a transition system |
| `Rfc3986.dfy`, `Allowlist.dfy` | paths as RFC 3986 reads them; the path checks and the route table | functions and lemmas |
| `Cidr.dfy` | masks against prefix arithmetic (section 3.1 of RFC 4632) | functions and lemmas |
| `Gate.dfy` | `handle_request`: the gates in order, and admission over runs | a method, its specification, run theorems |
| `Totals.dfy`, `Text.dfy`, `Wrappers.dfy` | sums over maps, trimming, option and result types | helpers |

A source file that updates fields in place appears twice: as a class (or methods on `AppState`)
whose `ensures` give the whole new state by a specification function, and as lemmas about that
function, which is also what the transition systems are built from.

## What holds, and what does not

- **Cache transparency.** If no path's content returns to an earlier version, each 200 carries a
  version that was current upstream between the request's arrival and its end
  (`CacheTransparency.CacheIsTransparent`). The hypothesis is needed: up to eight validators are sent
  but the first known digest is always served, so after A, B, A a client gets B
  (`CacheStale.ReturningContentIsServedStale`). `CacheStale.RevalidatedAnswerExact` says, for every run and
  whatever comes between the 304 and the end of the request, exactly when it is answered correctly.
- **Budget.** `reserve_space` promises room without setting it aside. With at most k admitted fills
  outstanding the cache stays within max + (k-1) quarters of max, plus a quarter for each publication
  larger than its declared length (`CacheBudget.BudgetUnderConcurrency`); the bound is reached for every k
  and every number of such publications (`CacheBudget.BudgetBoundIsTight`).
- **Rate limit.** A minute admits at most twice the limit, one limit more for each unban
  (`RateLimit.RateBound`), and this is reached for every number of unbans, because the three classes share
  one window start (`RateLimit.RateBoundIsTight`).
- **Replay.** One signed request is accepted at most three times (`Validate.ReplayBound`), and three is
  reached (`Validate.ReplayBoundIsTight`). The 64-bit skew test differs from the intended one at
  exactly one timestamp (`Validate.SkewOkExactly`, with wrapping arithmetic as in a release build).
- **Credentials.** Disk and memory agree in every run, whatever the upstream answers
  (`Credentials.DiskAndMemoryAgree`). The upstream agrees with them after every step exactly if every
  exchange is filed as it is answered (`Credentials.CredentialAgreement`); a reply lost after the upstream
  filed the new key breaks it (`Credentials.ReenrollAgreementExact`).
- **Forwarding without an id.** Where every exchange is one step the proxy never forwards without an id
  (`Credentials.ForwardingHasIdentity`). With the tasks interleaved it can: a reset that finds a sync in
  progress is followed by that sync turning forwarding on. `TornSync.ForwardingWithoutIdentityExactly` is the
  exact condition on runs, and `TornSync.QuietResetsKeepIdentity` with
  `TornSync.BusyResetForwardsWithoutIdentity` the exact guard on the reset.
- **Paths.** An accepted path is stable under one percent-decoding (`Allowlist.AcceptedPathsAreStable`). Under
  a second one some are not (`Allowlist.TwoDecodingsAreNotCovered`); `Allowlist.TwiceDecodedExactly` says
  exactly which, by a test on the characters of the text decoded once.
- **Body caps.** On the allowlist the file budget is exactly for PUT command artifacts
  (`Allowlist.CapExactly`). Off it the prefix and suffix test also admits every path with nothing, with a
  slash, or with no identifier between prefix and suffix (`Allowlist.CapNeedsTheAllowlist`).

## Hypotheses

- One step of the cache system is one of: reading the known digests, taking the lead, the upstream's
  answer, `reserve_space`, publishing, pinning, reading with unpinning, dropping the lead. At a finer
  grain the code has races this does not show: the `store` at artifact_cache.rs:400 can overwrite the
  `fetch_add` at line 295, two publishers of one digest can both count it (lines 291-295), and the pin
  check at line 388 can race the pin at line 337.
- The upstream answers with the whole content it holds at that moment, and a 304 only for a validator it was sent.
- A task is not cancelled between artifact_cache.rs:123 and 125.
- File operations succeed, and the blob directory is well formed at start-up.
- SHA-256 is a parameter, injective where a lemma says so. Signatures, canonical strings, HMAC and
  base64 lengths are parameters too, as are the release-path predicate, UUID parsing and the artifact
  size limit of `hecate_protocol`.
- The query does not change the content of a release artifact, since the cache key is the path alone.
- All instants are readings of one nondecreasing clock, in nanoseconds.
- One step of the sync protocol is one of: reading the id and asking, hearing the answer, clearing a table,
  inserting an entry, turning forwarding on; a heartbeat is two steps; an enrollment, a re-enrollment and a
  reset are one each. One sync and one heartbeat are out at a time.
- The limiter is sequential: in the code its length check and its insertion are separate operations.
- Sums of byte counts stay below 2^64; the chunk total saturates there, as in the code.
- Path text is a sequence of octets.

Where a comment and the code differ, the code is modelled: at artifact_cache.rs:118-121 a follower that
loses the race is forwarded directly at once rather than "next request", and at lines 244-256 a body
past the admission limit is buffered and answered whole rather than streamed.

## Model

| member | source | states |
|---|---|---|
| `CacheTransparency.CacheIsTransparent` | crates/proxy/src/artifact_cache.rs:75-180 | in every interleaving without returning content, each 200 carries a version the upstream held as current between the request's arrival and its completion |
| `CacheTransparency.FaithfulStep` | crates/proxy/src/artifact_cache.rs:88-180 | every step keeps each path's list strictly newest first in upstream order and every request on the way to a faithful answer |
| `CacheTransparency.PublishKeepsFaithful` | crates/proxy/src/artifact_cache.rs:286-311 | publishing keeps all lists newest first, since nobody else is filling the path |
| `CacheTransparency.RevalidationMeansFirst` | crates/proxy/src/artifact_cache.rs:146-176 | for a newest-first list a 304 can only stand for the first known digest |
| `CacheTransparency.RevalidationExact` | crates/proxy/src/artifact_cache.rs:146-176 | for any duplicate-free list, after a 304 the first digest is the current one if and only if the current one is not among the later validators |
| `CacheStale.RevalidatedAnswerExact` | crates/proxy/src/artifact_cache.rs:103-180 | in every run, whatever happens between the 304 to a leader and the end of its request: a 200 carries the content current at the 304 if and only if its digest is not among the validators after the first, and the only other end is the 503 for a missing blob |
| `CacheStale.ReturningContentIsServedStale` | crates/proxy/src/artifact_cache.rs:146-176 | from an empty cache, a reachable run A, B, A in which a client that arrives after the return is served B |
| `CacheSafety.ReachableStatesAreSafe` | crates/proxy/src/artifact_cache.rs:88-127 | every reachable state has single flight and conservation: bytes add up, the last-used keys are the blobs, lists are duplicate-free and point at stored blobs, each pin count is the number of reads in progress |
| `CacheSafety.SingleFlightStep` | crates/proxy/src/artifact_cache.rs:110-126 | every step keeps one live leader for each inflight entry and an entry for each leader |
| `CacheSafety.ConservedStep` | crates/proxy/src/artifact_cache.rs:286-405 | every step keeps the byte count, the tables and the pin counts in line |
| `CacheSafety.OneFillPerPath` | crates/proxy/src/artifact_cache.rs:111-124 | no path has two fills in progress |
| `CacheSafety.OnlyTheLeaderDropsItsLead` | crates/proxy/src/artifact_cache.rs:118-124 | an inflight entry goes only by its own leader's release |
| `CacheSafety.FollowersFallThroughOrTimeOut` | crates/proxy/src/artifact_cache.rs:88-121 | a request that never led ends as plain forwarding or as the time-out 503; a leader ends by its release |
| `CacheSafety.PinnedReadsComplete` | crates/proxy/src/artifact_cache.rs:327-347 | in every reachable state a pinned blob is still there to be read |
| `CacheSafety.ArrivalsWaitForTheLeader` | crates/proxy/src/artifact_cache.rs:88-101 | a request waits if and only if it finds its path being filled, and stops waiting only when woken or out of time |
| `CacheRecency.StampIsLatestUse` | crates/proxy/src/artifact_cache.rs:299-341 | in every run the last use of a stored blob is the instant of its latest publication or pin, told from the events alone, or its stamp at start-up |
| `CacheRecency.EvictionFollowsUse` | crates/proxy/src/artifact_cache.rs:376-405 | in every run, a reservation that evicts a blob leaves no unpinned blob whose latest use is earlier |
| `CacheRecency.LatestUseIsMaximal` | crates/proxy/src/artifact_cache.rs:299-341 | with a nondecreasing clock no use of a digest is later than its latest one |
| `CacheAnswers.LeaderAnsweredExactly` | crates/proxy/src/artifact_cache.rs:164-324 | how a leader's request ends, for every answer but a 304 and every interleaving after it: failed without an answer, handed on for another status, else the whole content current at the answer, unless the stream broke or the tag of a body small enough to keep was wrong |
| `CacheAnswers.FinishExactly` | crates/proxy/src/artifact_cache.rs:238-324 | the last step of a fill, told from the chunks and the tag: failed or answered whole, and published first in the list exactly if tagged, right and within a quarter |
| `CacheBudget.BudgetUnderConcurrency` | crates/proxy/src/artifact_cache.rs:366-408 | with at most k admitted fills outstanding, bytes and promises stay within max, a quarter of it for each further fill and a quarter for each overrun |
| `CacheBudget.OneAtATimeKeepsTheBudget` | crates/proxy/src/artifact_cache.rs:206-216 | one fill at a time with honest lengths keeps the cache within max |
| `CacheBudget.BudgetBoundIsTight` | crates/proxy/src/artifact_cache.rs:206-295 | for every k and every number of overruns, a run with at most k fills outstanding that ends exactly at the bound |
| `ArtifactStore.ReserveIsExactLru` | crates/proxy/src/artifact_cache.rs:366-408 | success if and only if the request is within a quarter and fits beside the pinned bytes; the victims are the shortest sufficient prefix of the unpinned entries, oldest first; nothing else changes |
| `ArtifactStore.SurvivorsAreRecentOrPinned` | crates/proxy/src/artifact_cache.rs:383-405 | a victim is never pinned and no unpinned survivor is older than a victim |
| `ArtifactStore.SweepIsCut` | crates/proxy/src/artifact_cache.rs:384-406 | the eviction loop removes exactly a shortest sufficient prefix, recounted from scratch |
| `ArtifactStore.PublishKeepsConsistent` | crates/proxy/src/artifact_cache.rs:290-311 | publishing keeps bytes, last use and index consistent, whether or not the blob was there |
| `ArtifactStore.PinKeepsConsistent` | crates/proxy/src/artifact_cache.rs:332-341 | pinning an existing blob keeps the store consistent |
| `ArtifactStore.UnpinKeepsConsistent` | crates/proxy/src/artifact_cache.rs:343-347 | unpinning keeps the store consistent |
| `ArtifactStore.StripEtagInvertsQuote` | crates/proxy/src/artifact_cache.rs:201-205 | stripping a quoted tag, with any white space around it, gives the tag back, for every tag without a quote (section 8.8.3 of RFC 9110) |
| `ArtifactStore.StripEtagExactly` | crates/proxy/src/artifact_cache.rs:201-205 | what is left of any header: the text inside the white space and inside all quotes on either side |
| `ArtifactCache.ArtifactCache.Bootstrap` | crates/proxy/src/artifact_cache.rs:44-72 | the directory walk counts the bytes of, and dates, exactly the plain files named by 64 hex digits |
| `ArtifactCache.BootstrapIsConsistent` | crates/proxy/src/artifact_cache.rs:50-69 | from a well-formed directory the walk leaves a consistent store |
| `ArtifactCache.WalkFindsExactly` | crates/proxy/src/artifact_cache.rs:52-67 | the walk counts exactly the plain files named by 64 hex digits in the directories directly below |
| `ArtifactCache.ArtifactCache.SortedEntries` | crates/proxy/src/artifact_cache.rs:377-383 | every entry once, in order of last use |
| `ArtifactCache.ArtifactCache.EvictBlob` | crates/proxy/src/artifact_cache.rs:396-405 | the file, its size, its last use and all its index entries go, and nothing else |
| `ArtifactCache.ArtifactCache.ReserveSpace` | crates/proxy/src/artifact_cache.rs:366-408 | the in-place loop leaves the state and answer of the reservation function, for a sorted order |
| `ArtifactCache.ArtifactCache.CollectBody` | crates/proxy/src/artifact_cache.rs:234-284 | for every chunk sequence: abort if the stream breaks or the tag differs, answer all bytes otherwise, keep them only if tagged and within a quarter |
| `ArtifactCache.ArtifactCache.CollectRest` | crates/proxy/src/artifact_cache.rs:244-250 | all of a body too large to keep, or nothing if the stream breaks |
| `ArtifactCache.ArtifactCache.PublishBlob` | crates/proxy/src/artifact_cache.rs:286-311 | the new state of a publication: blob and bytes once, last use now, digest first in the path's list |
| `ArtifactCache.ArtifactCache.PinBlob` | crates/proxy/src/artifact_cache.rs:327-341 | a pin and a new last use if the blob exists, nothing otherwise |
| `ArtifactCache.ArtifactCache.UnpinBlob` | crates/proxy/src/artifact_cache.rs:343-347 | one pin less |
| `ArtifactCache.ArtifactCache.TakeLead` | crates/proxy/src/artifact_cache.rs:110-121 | the lead is taken exactly if the path is free |
| `ArtifactCache.ArtifactCache.DropLead` | crates/proxy/src/artifact_cache.rs:124-124 | the path's entry goes |
| `ArtifactCache.ArtifactCache.FillOnce` | crates/proxy/src/artifact_cache.rs:129-325 | the whole fill, answer by answer, equals one function of the store |
| `ArtifactCache.FillKeepsOnlyTaggedBodies` | crates/proxy/src/artifact_cache.rs:201-324 | a complete answer carries the concatenation of all chunks, and a blob is committed only within a quarter and under the digest that the stripped ETag names |
| `ArtifactCache.FillKeepsStore` | crates/proxy/src/artifact_cache.rs:129-359 | a whole fill keeps the store consistent and content-addressed and leaves pins and leads as they were |
| `ArtifactCache.BodyAnswersExactly` | crates/proxy/src/artifact_cache.rs:238-324 | for every chunk sequence and tag, once there is room: a broken stream fails and publishes nothing; too large or untagged is answered and not kept; tagged by its digest is answered, stored, dated and first in the path's list; any other tag fails and publishes nothing |
| `ArtifactCache.UnadmittedBodies` | crates/proxy/src/artifact_cache.rs:208-216 | a body refused room is streamed on whole and publishes nothing |
| `ArtifactCache.BodilessAnswersExactly` | crates/proxy/src/artifact_cache.rs:164-199 | no answer fails; another status is handed on; a 304 is answered with the first known blob, newly dated, if it is stored, and with the 503 otherwise |
| `RateLimit.RateLimiter.CheckRateLimit` | crates/proxy/src/state.rs:198-228 | the table and the answer of one check: prune when full, refuse a new address when still full, restart an old window, count, compare |
| `RateLimit.RateLimiter.ClearRateLimit` | crates/proxy/src/state.rs:231-235 | one counter of one address is zero, nothing else changes |
| `RateLimit.RateLimiter.ListLimitedRateLimits` | crates/proxy/src/state.rs:238-272 | exactly one report for each pair over its limit in a running window, with its figures |
| `RateLimit.RateBound` | crates/proxy/src/state.rs:198-235 | over every run a half-open minute admits at most (2 + unbans) times the limit of an address and class |
| `RateLimit.RateBoundIsTight` | crates/proxy/src/state.rs:219-235 | for every class and every number of unbans, a run that admits (2 + unbans) times the limit in a minute |
| `RateLimit.PrunedLimiterRefinesUnbounded` | crates/proxy/src/state.rs:199-228 | but for the requests refused for space, every verdict is that of a limiter that is never pruned and never full |
| `RateLimit.RefinesUntilFull` | crates/proxy/src/state.rs:199-228 | until the first capacity refusal every verdict is the unbounded limiter's |
| `RateHistory.ReferenceByHistory` | crates/proxy/src/state.rs:210-227 | the verdicts of the unbounded limiter in closed form over the events: a window opens at an address's first request and at each first one a minute after the previous opening, and a request is admitted if and only if, it included, no more than the limit of its class came since the opening and the last unban |
| `RateHistory.LimiterByHistory` | crates/proxy/src/state.rs:199-235 | the same for the pruned and capped limiter: all verdicts until the first capacity refusal, and all others after it |
| `RateLimit.FullExactlyWhenLiveTableIs` | crates/proxy/src/state.rs:203-209 | a request is refused for space if and only if 8192 other addresses have running windows |
| `RateLimit.TableNeverExceedsCap` | crates/proxy/src/state.rs:203-213 | the table never holds more than 8192 entries |
| `RateLimit.ReportedPairsAreRefused` | crates/proxy/src/state.rs:238-272 | a refusal makes a pair reported, and a reported pair is refused |
| `Nonces.NonceCache.Insert` | crates/proxy/src/nonce.rs:24-34 | prune, refuse a key still there, record it otherwise |
| `Nonces.NonceCacheRefinesLog` | crates/proxy/src/nonce.rs:24-34 | over every run the cache answers as a log that never forgets and refuses a key accepted less than the TTL ago |
| `Nonces.RecordFollowsLog` | crates/proxy/src/nonce.rs:24-34 | one call answers true if and only if the log has no acceptance of the key within the TTL, and keeps the correspondence |
| `Validate.SkewOkExactly` | crates/proxy/src/validate.rs:30-33 | the 64-bit test accepts exactly the closed five-minute window on both sides, and the one timestamp 2^63 ms in the past |
| `Validate.SkewOverflowWitness` | crates/proxy/src/validate.rs:30-33 | that overflow occurs at every clock reading: the timestamp 2^63 ms earlier is a 64-bit integer and passes |
| `Validate.ReplayBound` | crates/proxy/src/validate.rs:18-70 | over every run one (agent, nonce, timestamp) is accepted at most three times |
| `Validate.ReplayBoundIsTight` | crates/proxy/src/validate.rs:30-67 | a request that verifies at both ends and in the middle of its window is accepted all three times |
| `Validate.LateFirstAcceptanceIsTheOnlyOne` | crates/proxy/src/validate.rs:30-67 | first accepted strictly after its timestamp, a request is never accepted again |
| `Validate.RejectedRequestsLeaveNoTrace` | crates/proxy/src/validate.rs:25-67 | a rejected request, wherever it was rejected, changes no later answer |
| `Validate.SignedAdmitsExactly` | crates/proxy/src/validate.rs:18-70 | exactly which signed requests are accepted: headers, skew, nonce length, a known unrevoked agent, some key of it still good that verifies, and no live record of the nonce |
| `Validate.SignedRefusalsExactly` | crates/proxy/src/validate.rs:25-67 | a refusal is 403 if and only if all earlier checks pass and the agent is revoked, and 401 otherwise |
| `Validate.PrecheckAdmitsExactly` | crates/proxy/src/validate.rs:72-117 | exactly which enroll requests pass: shape, key length, a listed, live, unused token, and no machine but the bound one |
| `Validate.PrecheckRefusalsExactly` | crates/proxy/src/validate.rs:72-117 | a refusal is 400 if and only if the body does not decode, or a well-shaped token comes with a key that does not, and 401 otherwise |
| `Credentials.DiskAndMemoryAgree` | crates/proxy/src/sync.rs:57-191 | in every run, from whatever is on disk and whatever the upstream answers, files or loses, disk and memory agree on key and id |
| `Credentials.CredentialAgreement` | crates/proxy/src/sync.rs:57-191 | disk key, memory key and upstream key agree after every step of a run if and only if every exchange of it is filed as answered |
| `Credentials.EnrollAgreementExact` | crates/proxy/src/sync.rs:87-107 | a first enrollment keeps agreement if and only if an acceptance finds the key filed under the id it gives |
| `Credentials.ReenrollAgreementExact` | crates/proxy/src/sync.rs:109-147 | for every exchange, a re-enrollment keeps agreement if and only if the upstream files the new key for this proxy exactly when an acceptance for this proxy arrives; that acceptance is also exactly what is reported as success |
| `Credentials.FlagFollowsLatest` | crates/proxy/src/sync.rs:184-319 | over every run of exchanges the forwarding flag is what the latest event that concerns it made it: on by a successful sync, off by a restart, a reset, a 403 or a pending enrollment |
| `Credentials.ForwardingHasIdentity` | crates/proxy/src/sync.rs:193-269 | where every exchange is one step, no run ever forwards without an id |
| `Credentials.EnrollExactly` | crates/proxy/src/sync.rs:87-107 | told from the answer: the id is the one given by an acceptance, the keys stay |
| `Credentials.TryReenrollExactly` | crates/proxy/src/sync.rs:57-85 | told from the answers: after 400, 401, 404 or a failure with the generic-token text both keys are the reset key and the id is the one the following enrollment gives, or none; after an acceptance for this proxy the new key is kept; after any other answer nothing changes; and when it ends well |
| `Credentials.UnaskedReenroll` | crates/proxy/src/sync.rs:109-124 | without an id or a token, or with a token listed as another proxy's, nothing changes and nothing is asked |
| `Credentials.BootstrapCredentialsExactly` | crates/proxy/src/sync.rs:19-71 | the credentials after a start, told from the answers, in every mode: first enrollment, forced, rejected, untouched |
| `Credentials.BootstrapEndsWellExactly` | crates/proxy/src/sync.rs:19-71 | when a start ends well, told from the answers, in every mode |
| `Credentials.BootstrapTouchesCredentialsExactly` | crates/proxy/src/sync.rs:19-85 | with a stored id the credentials change if and only if a re-enrollment is asked (a usable token, and the force flag or a 401 to the first sync) and its answer accepts the new key for this proxy or is 400, 401, 404 or a failure with the generic-token text |
| `Credentials.BootstrapOkMeansReady` | crates/proxy/src/sync.rs:19-55 | a bootstrap that ends well ends with an id and forwarding on |
| `Credentials.BootstrapAgrees` | crates/proxy/src/sync.rs:19-71 | honest exchanges leave disk, memory and upstream agreed after the whole bootstrap, however it ends |
| `Credentials.BootstrapAgreesLocally` | crates/proxy/src/sync.rs:19-71 | whatever the upstream answers, a bootstrap leaves disk and memory agreed |
| `Credentials.FromListHoldsLast` | crates/proxy/src/sync.rs:222-252 | a table filled from a list holds exactly the listed keys, each with its last entry |
| `State.Open` | crates/proxy/src/state.rs:71-110 | the start of the process: a key file that holds no key or an id file that does not parse is an error, a missing key file is written first; otherwise the key and id from disk, empty tables, forwarding off |
| `State.AppState.SetProxyId` | crates/proxy/src/state.rs:128-162 | the id on disk and in memory |
| `State.AppState.ForgetProxyIdentity` | crates/proxy/src/identity.rs:45-62 | the id file goes, the key file is rotated if either existed, and the report says what was removed, what was rotated and whether the id file held anything |
| `State.AppState.ClearProxyIdentity` | crates/proxy/src/state.rs:165-178 | the reset, files and memory together |
| `State.AppState.SetForwarding` | crates/proxy/src/state.rs:116-118 | only the flag changes |
| `State.AppState.UpsertAgentFromEnroll` | crates/proxy/src/state.rs:180-195 | the agent's record is its trimmed key, with no previous key |
| `Sync.PostProxyEnroll` | crates/proxy/src/sync.rs:149-191 | the result and the new state for every answer; only a first enrollment stores an id |
| `Sync.EnrollIfNeeded` | crates/proxy/src/sync.rs:87-107 | a first enrollment with the key in memory |
| `Sync.ReenrollIfNeeded` | crates/proxy/src/sync.rs:109-147 | the new key is kept only if the upstream accepts it for the same id |
| `Sync.TryReenroll` | crates/proxy/src/sync.rs:57-71 | a re-enrollment, and a reset with a first enrollment where the refusal calls for it |
| `Sync.RunOnce` | crates/proxy/src/sync.rs:193-269 | the three tables, the flag, the unbans and the outcome for every answer |
| `Sync.ReplaceTables` | crates/proxy/src/sync.rs:222-252 | the clear-then-insert loops leave exactly the payload's tables |
| `Sync.UnbansClearExactly` | crates/proxy/src/sync.rs:254-264 | the unbans zero exactly the counters they name |
| `Sync.HeartbeatOnce` | crates/proxy/src/sync.rs:271-319 | sent exactly if enrolled and forwarding, reporting exactly the limited pairs; only a 403 changes the flag |
| `Sync.Bootstrap` | crates/proxy/src/sync.rs:19-55 | state and outcome of the whole start-up sequence for every combination of answers, and the limiter table: only a good end applies unbans, those of the deciding sync |
| `TornSync.AcceptedUnderLatestRecords` | crates/proxy/src/validate.rs:39-63 | at any point of any run, torn or not, an accepted request verifies under an unrevoked record of the latest payload or of an enrollment since its clearing |
| `TornSync.OmittedAgentsAreRefused` | crates/proxy/src/sync.rs:222-238 | once the clearing has run, an agent the payload leaves out is refused until it enrolls again |
| `TornSync.KnownAgentsExactly` | crates/proxy/src/sync.rs:222-238 | the torn window only hides agents: when none is left to insert, exactly the listed and since enrolled agents are known |
| `TornSync.ForwardingExactly` | crates/proxy/src/sync.rs:184-312 | with every task interleaved, forwarding is on if and only if a sync ended well and since then no 403 to a sync or a heartbeat, no accepted enrollment that awaits approval and no reset came |
| `TornSync.ForwardingWithoutIdentityExactly` | crates/proxy/src/sync.rs:57-71 | a run leaves the proxy forwarding without an id if and only if it was lastly reset while a sync was in progress and that sync ended well with nothing to turn forwarding off since |
| `TornSync.QuietResetsKeepIdentity` | crates/proxy/src/state.rs:165-178 | if every reset finds no sync in progress, the proxy never forwards without an id |
| `TornSync.BusyResetForwardsWithoutIdentity` | crates/proxy/src/main.rs:65-86 | a reset that finds a sync in progress can always be followed, by steps of that sync alone, by forwarding without an id |
| `TornSync.UninterruptedSyncIsAtomic` | crates/proxy/src/sync.rs:193-269 | for every answer, left to itself the step-by-step sync is the one step that `Sync.RunOnce` is proved against |
| `TornSync.UninterruptedHeartbeatIsAtomic` | crates/proxy/src/sync.rs:271-319 | a heartbeat that nothing comes between is the one step that `Sync.HeartbeatOnce` is proved against |
| `Allowlist.AcceptedPathsAreStable` | crates/proxy/src/allowlist.rs:8-26 | for every accepted path, percent-decoding commutes with splitting, the decoded path is a fixed point of dot-segment removal (sections 2.1 and 5.2.4 of RFC 3986) and has no backslash |
| `Allowlist.AcceptedExactly` | crates/proxy/src/allowlist.rs:8-26 | exactly which paths are accepted, segment by segment and encoded octet by encoded octet |
| `Allowlist.EncodingsAreFound` | crates/proxy/src/allowlist.rs:9-18 | the test on the lower-cased text finds every encoding of the octet and nothing else |
| `Allowlist.TwiceDecodedExactly` | crates/proxy/src/allowlist.rs:8-26 | for every accepted path, each stability under a second decoding holds if and only if the text decoded once passes a test on its characters: no piece between slashes, plain or encoded, spells a dot-segment; no encoded slash; no encoded backslash |
| `Allowlist.CodesDotsExactly` | crates/proxy/src/allowlist.rs:12-18 | the six spellings are exactly the texts that decode to a dot-segment |
| `Allowlist.TwoDecodingsAreNotCovered` | crates/proxy/src/allowlist.rs:8-26 | the failing case occurs: an accepted path that gains a dot-segment when decoded twice |
| `Allowlist.CommandArtifactExactly` | crates/proxy/src/allowlist.rs:51-65 | the segment test accepts exactly prefix, identifier, `/artifact` |
| `Allowlist.CapExactly` | crates/proxy/src/allowlist.rs:116-127 | on allowed routes the file budget is exactly for PUT command artifacts and the enroll cap exactly for the enroll route |
| `Allowlist.FileBudgetExactly` | crates/proxy/src/allowlist.rs:116-122 | for every method and path, on the allowlist or off it: the file budget applies if and only if it is a PUT and the path is prefix and suffix, sharing their slash or with any text between |
| `Allowlist.CapNeedsTheAllowlist` | crates/proxy/src/allowlist.rs:51-122 | that test and the segment test disagree if and only if nothing stands between prefix and suffix, or a slash does, or no identifier; none of these routes is allowed |
| `Allowlist.AllowedLiesUnderAgent` | crates/proxy/src/allowlist.rs:29-49 | every allowed route is a canonical path under the agent prefix, if release paths are |
| `Allowlist.AllowedExactly` | crates/proxy/src/allowlist.rs:29-49 | exactly which requests are allowed: the seven fixed routes, canonical release paths to read, canonical command artifacts to read and write |
| `Allowlist.CommandArtifactsAreAllowed` | crates/proxy/src/allowlist.rs:29-65 | every identifier of lower-case letters, digits and hyphens has its command artifact, to read and to write |
| `Allowlist.ClassExactly` | crates/proxy/src/allowlist.rs:98-110 | unrecognized exactly off the allowlist, enroll exactly for the enroll route |
| `Rfc3986.FixedExactly` | crates/proxy/src/allowlist.rs:22-24 | an absolute path is a fixed point of section 5.2.4 of RFC 3986 if and only if it has no dot-segment |
| `Rfc3986.DecodingCommutesExactly` | crates/proxy/src/allowlist.rs:16-17 | decoding commutes with splitting if and only if no slash is encoded |
| `Rfc3986.DecodingInvertsEncoding` | crates/proxy/src/allowlist.rs:12-18 | the decoding the paths are compared under gives every percent-encoded sequence of octets back |
| `Cidr.ContainsIsPrefixEquality` | crates/proxy/src/config.rs:38-73 | the masks compute equality of address prefixes, for both families and every length |
| `Cidr.LongerBlockIsSmaller` | crates/proxy/src/config.rs:38-73 | lengthening the prefix of a network only shrinks it |
| `Cidr.BlocksNestOrAreDisjoint` | crates/proxy/src/config.rs:38-73 | any two blocks are nested or disjoint |
| `Gate.HandleRequest` | crates/proxy/src/main.rs:131-231 | response and new state of one request through all the gates in order |
| `Gate.VerifySignedAgentRequest` | crates/proxy/src/validate.rs:18-70 | the answer and the nonces recorded by one signed-request check |
| `Gate.FinishEnroll` | crates/proxy/src/main.rs:200-215 | after a successful enrollment the agent is known and the token gone |
| `Gate.SentExactly` | crates/proxy/src/main.rs:141-198 | exactly which requests go upstream: allowed, forwarding on, within quota, within the cap, validated |
| `Gate.SentRequestsAreAdmissible` | crates/proxy/src/main.rs:141-198 | a request sent upstream has a dot-free path under the agent prefix and a body within the cap, the file budget being exactly for PUT command artifacts |
| `Gate.UnsentRequestsChangeNoProxy` | crates/proxy/src/main.rs:143-183 | a request not sent changes neither identity nor tables, and one stopped before validation no nonce |
| `Gate.ProxyChangesExactly` | crates/proxy/src/main.rs:185-231 | for every request and answer: the proxy changes only after a 2xx to a sent enroll request, and then its one token goes and the agent of the answer is known by the trimmed key and the state given, all else as before |
| `Gate.ResponsesExactly` | crates/proxy/src/main.rs:141-231 | which gate answers: each response if and only if the gates before it pass and its own does not |
| `Gate.TablesChangeExactly` | crates/proxy/src/main.rs:141-183 | a request is counted unless the proxy is not ready, and the replay cache changes only by a signature check that is reached |
| `Gate.TokensAreSpent` | crates/proxy/src/main.rs:185-215 | a token that enrolled an agent is refused until a sync lists it again |
| `Gate.EnrolledAgentsSignWithTheirKey` | crates/proxy/src/main.rs:200-211 | right after an enrollment the agent's requests verify under the trimmed key it enrolled with and under no other |
| `Gate.SentWithinRate` | crates/proxy/src/main.rs:141-183 | over every run, whatever the syncs do, a minute sends upstream at most (2 + unbans) times the class limit of an address |
| `Gate.SentAtMostThrice` | crates/proxy/src/main.rs:158-183 | over every run, through syncs, revocations and key changes, one signed request goes upstream at most three times |

## Left out

- HTTP, TLS, streaming, task scheduling and JSON: answers and bodies are parameters, already decoded.
- Cryptography, random keys and nonces, UUID and timestamp parsing are parameters; `hecate_protocol` is not part of this model.
- File-system details (modes, links, partial writes, crashes): identity files and blobs are fields, a removal or a write is one assignment.
- Races below the step granularity listed under Hypotheses, and two syncs applied at once.
- A body that is streamed on without being kept: that its stream may break for the client too is not modelled.
- Wake-up delivery of the notification and the length of the 120-second wait: a follower may wake or time out at any moment.
- Error-message matching at sync.rs:73-85: errors are a datatype, the generic-token message a flag of the answer.
- The switch that turns the cache off, which leaves plain forwarding.
- Header filters, client address resolution, command line, environment configuration, host name, logging: they would add only easy members.
- `IpCidr::parse` and the default block list: text parsing that the address arithmetic does not depend on.
- `max_body_bytes` is modelled as the branch that applies; the body limit layers of the router in front of it are not.
- ArtifactCache.ArtifactCache.FillOnce: one fill without interruption; interleavings are the subject of `CacheProtocol.dfy`, whose steps are the same functions.
- TornSync.AcceptedUnderLatestRecords: starts with the process; a restart is a new run.
- TornSync.ForwardingExactly: the unbans of a payload, which touch neither the flag nor the tables of the proxy, are not among the steps.
