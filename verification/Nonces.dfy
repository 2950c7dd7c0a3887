/**
 The replay cache of `nonce.rs`: a map from (agent, nonce) to its expiry, pruned on
 every call.  Instants are nanoseconds of one clock.
 */
module Nonces {

  type Instant = int
  type AgentId = string
  type Key = (AgentId, string)

  const TTL: int := 300_000_000_000

  type Table = map<Key, Instant>

  function Unexpired(t: Table, now: Instant): Table {
    t - (set k | k in t && !(t[k] > now))
  }

  /** One call: prune, then record the key unless it is still there. */
  function Record(t: Table, key: Key, now: Instant): (Table, bool) {
    var kept := Unexpired(t, now);
    if key in kept then (kept, false) else (kept[key := now + TTL], true)
  }

  class NonceCache {
    var inner: Table

    constructor ()
      ensures inner == map[]
    {
      inner := map[];
    }

    /** True if the nonce was newly recorded, false if it was a replay. */
    method Insert(agentId: AgentId, nonce: string, now: Instant) returns (recorded: bool)
      modifies this
      ensures (inner, recorded) == Record(old(inner), (agentId, nonce), now)
    {
      inner := inner - (set k | k in inner && !(inner[k] > now));
      var key := (agentId, nonce);
      if key in inner {
        return false;
      }
      inner := inner[key := now + TTL];
      recorded := true;
    }
  }

  // ---------------------------------------------------------------- refinement of an unbounded log

  /** An acceptance as a log that forgets nothing would hold it. */
  datatype Acceptance = Acceptance(key: Key, at: Instant)

  /** The specification: the full history has no acceptance of the key less than TTL ago. */
  predicate Unseen(log: seq<Acceptance>, key: Key, now: Instant) {
    forall i :: 0 <= i < |log| && log[i].key == key ==> log[i].at + TTL <= now
  }

  /** The table holds what the log says is still within its TTL, and nothing the log does not know. */
  ghost predicate Abstracts(t: Table, log: seq<Acceptance>, clock: Instant) {
    && (forall i :: 0 <= i < |log| ==> log[i].at <= clock)
    && (forall i :: 0 <= i < |log| && log[i].at + TTL > clock ==> log[i].key in t && t[log[i].key] == log[i].at + TTL)
    && (forall k <- t :: Acceptance(k, t[k] - TTL) in log)
  }

  lemma PruningFollowsLog(t: Table, log: seq<Acceptance>, clock: Instant, now: Instant)
    requires clock <= now && Abstracts(t, log, clock)
    ensures Abstracts(Unexpired(t, now), log, now)
  {
  }

  lemma RecordingFollowsLog(t: Table, log: seq<Acceptance>, key: Key, now: Instant)
    requires Abstracts(t, log, now) && Unseen(log, key, now)
    ensures Abstracts(t[key := now + TTL], log + [Acceptance(key, now)], now)
  {
    var t', log' := t[key := now + TTL], log + [Acceptance(key, now)];
    assert log'[|log|] == Acceptance(key, now);
    forall k <- t' ensures Acceptance(k, t'[k] - TTL) in log' {
      if k != key {
        assert Acceptance(k, t[k] - TTL) in log;
      }
    }
  }

  /** One call answers as the log does, and keeps the correspondence. */
  lemma RecordFollowsLog(t: Table, log: seq<Acceptance>, key: Key, clock: Instant, now: Instant)
    requires clock <= now && Abstracts(t, log, clock)
    ensures Record(t, key, now).1 <==> Unseen(log, key, now)
    ensures Abstracts(Record(t, key, now).0, if Record(t, key, now).1 then log + [Acceptance(key, now)] else log, now)
  {
    PruningFollowsLog(t, log, clock, now);
    var kept := Unexpired(t, now);
    if key in kept {
      assert Acceptance(key, kept[key] - TTL) in log;
    } else {
      assert Unseen(log, key, now);
      RecordingFollowsLog(kept, log, key, now);
    }
  }

  datatype Call = Call(key: Key, at: Instant)

  predicate Ordered(calls: seq<Call>, clock: Instant) {
    calls == [] || (clock <= calls[0].at && Ordered(calls[1..], calls[0].at))
  }

  function Answers(t: Table, calls: seq<Call>): seq<bool>
    decreases |calls|
  {
    if calls == [] then []
    else [Record(t, calls[0].key, calls[0].at).1] + Answers(Record(t, calls[0].key, calls[0].at).0, calls[1..])
  }

  function LogAnswers(log: seq<Acceptance>, calls: seq<Call>): seq<bool>
    decreases |calls|
  {
    if calls == [] then []
    else
      var unseen := Unseen(log, calls[0].key, calls[0].at);
      [unseen] + LogAnswers(if unseen then log + [Acceptance(calls[0].key, calls[0].at)] else log, calls[1..])
  }

  lemma {:induction false} FollowsLogFrom(t: Table, log: seq<Acceptance>, calls: seq<Call>, clock: Instant)
    requires Ordered(calls, clock) && Abstracts(t, log, clock)
    ensures Answers(t, calls) == LogAnswers(log, calls)
    decreases |calls|
  {
    if calls == [] {
    } else {
      var key, now := calls[0].key, calls[0].at;
      RecordFollowsLog(t, log, key, clock, now);
      var (t', recorded) := Record(t, key, now);
      FollowsLogFrom(t', if recorded then log + [Acceptance(key, now)] else log, calls[1..], now);
    }
  }

  /** Main result: over every run the pruned cache answers as the log that never forgets. */
  lemma NonceCacheRefinesLog(calls: seq<Call>, clock: Instant)
    requires Ordered(calls, clock)
    ensures Answers(map[], calls) == LogAnswers([], calls)
  {
    FollowsLogFrom(map[], [], calls, clock);
  }
}
