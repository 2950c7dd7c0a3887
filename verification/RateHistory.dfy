/**
 The limiter's verdicts told from the events alone, without its table: where each address's
 window starts, and which of its requests count in it.
 */
module RateHistory {
  import opened RateLimit
  import opened Wrappers

  /**
   The request that opened the window of the address as it stands after the events: its first request, and
   then each first one at least a minute after the previous opening.
   */
  function Opening(events: seq<Event>, ip: string): (opening: Option<nat>)
    ensures opening.Some? ==> opening.value < |events|
    ensures opening.Some? ==> events[opening.value].Request? && events[opening.value].ip == ip
  {
    if events == [] then None
    else
      var n := |events| - 1;
      var previous := Opening(events[..n], ip);
      if && events[n].Request? && events[n].ip == ip
         && (previous.None? || events[n].at - events[previous.value].at >= WINDOW)
      then Some(n)
      else previous
  }

  predicate IsRequest(e: Event, ip: string, c: Class) {
    e.Request? && e.ip == ip && e.kind == c
  }

  predicate IsUnban(e: Event, ip: string, c: Class) {
    e.Clear? && e.ip == ip && e.kind == c
  }

  /** The requests of the address and class since the window opened and since the last unban. */
  function InWindow(events: seq<Event>, ip: string, c: Class): set<nat> {
    set j: nat | j < |events| && IsRequest(events[j], ip, c)
                 && Opening(events, ip).Some? && Opening(events, ip).value <= j
                 && forall l :: j < l < |events| ==> !IsUnban(events[l], ip, c)
  }

  /** A request is admitted exactly if, itself included, no more than the limit are in its window. */
  function VerdictOf(before: seq<Event>, e: Event): Verdict
    requires e.Request?
  {
    if |InWindow(before + [e], e.ip, e.kind)| <= e.kind.Limit() then Admitted else OverLimit
  }

  function HistoryVerdicts(events: seq<Event>): seq<Verdict> {
    if events == [] then []
    else
      var before, e := events[..|events| - 1], events[|events| - 1];
      HistoryVerdicts(before) + (if e.Request? then [VerdictOf(before, e)] else [])
  }

  // ---------------------------------------------------------------- one more event

  lemma OpeningAfter(events: seq<Event>, e: Event, ip: string)
    ensures var opens := e.Request? && e.ip == ip
              && (Opening(events, ip).None? || e.at - events[Opening(events, ip).value].at >= WINDOW);
            Opening(events + [e], ip) == if opens then Some(|events|) else Opening(events, ip)
  {
    assert (events + [e])[..|events|] == events;
  }

  /** The window's requests after one more event: emptied by an unban, begun anew by an opening, or one more. */
  lemma InWindowAfter(events: seq<Event>, e: Event, ip: string, c: Class)
    ensures var n, longer := |events|, events + [e];
            InWindow(longer, ip, c)
            == if IsUnban(e, ip, c) then {}
               else (if Opening(longer, ip) == Some(n) then {} else InWindow(events, ip, c))
                    + (if IsRequest(e, ip, c) then {n} else {})
  {
    var n, longer := |events|, events + [e];
    OpeningAfter(events, e, ip);
    forall j: nat | j < n
      ensures j in InWindow(longer, ip, c) <==>
                j in InWindow(events, ip, c) && !IsUnban(e, ip, c) && Opening(longer, ip) != Some(n)
    {
      assert longer[j] == events[j] && longer[n] == e;
      assert forall l :: j < l < n ==> longer[l] == events[l];
    }
    assert n in InWindow(longer, ip, c) <==> IsRequest(e, ip, c);
  }

  // ---------------------------------------------------------------- the table follows the events

  function Capped(n: nat): nat {
    if n > U32_MAX then U32_MAX else n
  }

  /** The entry of an address says when its window opened and how many requests of each class are in it. */
  ghost predicate FollowsFor(u: Table, events: seq<Event>, ip: string) {
    && (ip in u <==> Opening(events, ip).Some?)
    && (ip in u ==>
          && u[ip].windowStart == events[Opening(events, ip).value].at
          && forall c :: u[ip].Count(c) == Capped(|InWindow(events, ip, c)|))
  }

  ghost predicate Follows(u: Table, events: seq<Event>) {
    forall ip :: FollowsFor(u, events, ip)
  }

  lemma InWindowSize(events: seq<Event>, e: Event, ip: string, c: Class)
    ensures |InWindow(events + [e], ip, c)|
         == if IsUnban(e, ip, c) then 0
            else (if Opening(events + [e], ip) == Some(|events|) then 0 else |InWindow(events, ip, c)|)
                 + (if IsRequest(e, ip, c) then 1 else 0)
  {
    InWindowAfter(events, e, ip, c);
    assert |events| !in InWindow(events, ip, c);
  }

  lemma RequestFollows(u: Table, events: seq<Event>, ip: string, c: Class, at: Instant)
    requires Follows(u, events)
    ensures FollowsFor(CountRequest(u, ip, c, at).0, events + [Request(ip, c, at)], ip)
  {
    var e := Request(ip, c, at);
    var u' := CountRequest(u, ip, c, at).0;
    assert FollowsFor(u, events, ip);
    OpeningAfter(events, e, ip);
    forall k: Class ensures u'[ip].Count(k) == Capped(|InWindow(events + [e], ip, k)|) {
      InWindowSize(events, e, ip, k);
    }
  }

  lemma UnbanFollows(u: Table, events: seq<Event>, ip: string, c: Class, at: Instant)
    requires Follows(u, events)
    ensures FollowsFor(Unban(u, ip, c), events + [Clear(ip, c, at)], ip)
  {
    var e := Clear(ip, c, at);
    assert FollowsFor(u, events, ip);
    OpeningAfter(events, e, ip);
    forall k: Class ensures ip in u ==> Unban(u, ip, c)[ip].Count(k) == Capped(|InWindow(events + [e], ip, k)|) {
      InWindowSize(events, e, ip, k);
    }
  }

  /** Nobody else's entry moves. */
  lemma OthersFollow(u: Table, events: seq<Event>, e: Event, ip: string)
    requires Follows(u, events) && e.ip != ip
    ensures FollowsFor(ReferenceApply(u, e), events + [e], ip)
  {
    assert FollowsFor(u, events, ip);
    OpeningAfter(events, e, ip);
    forall k: Class ensures |InWindow(events + [e], ip, k)| == |InWindow(events, ip, k)| {
      InWindowSize(events, e, ip, k);
    }
  }

  lemma FollowsStep(u: Table, events: seq<Event>, e: Event)
    requires Follows(u, events)
    ensures Follows(ReferenceApply(u, e), events + [e])
  {
    forall ip ensures FollowsFor(ReferenceApply(u, e), events + [e], ip) {
      if e.ip != ip {
        OthersFollow(u, events, e, ip);
      } else if e.Request? {
        RequestFollows(u, events, ip, e.kind, e.at);
      } else {
        UnbanFollows(u, events, ip, e.kind, e.at);
      }
    }
  }

  // ---------------------------------------------------------------- verdicts

  function ReferenceRun(u: Table, events: seq<Event>): Table
    decreases |events|
  {
    if events == [] then u else ReferenceRun(ReferenceApply(u, events[0]), events[1..])
  }

  lemma {:induction false} ReferenceLast(u: Table, events: seq<Event>, e: Event)
    ensures ReferenceRun(u, events + [e]) == ReferenceApply(ReferenceRun(u, events), e)
    ensures ReferenceVerdicts(u, events + [e])
         == ReferenceVerdicts(u, events)
            + (if e.Request? then [CountRequest(ReferenceRun(u, events), e.ip, e.kind, e.at).1] else [])
    decreases |events|
  {
    if events == [] {
      assert events + [e] == [e] && [e][1..] == [];
    } else {
      assert (events + [e])[1..] == events[1..] + [e];
      ReferenceLast(ReferenceApply(u, events[0]), events[1..], e);
    }
  }

  lemma VerdictFollows(u: Table, events: seq<Event>, e: Event)
    requires Follows(u, events) && e.Request?
    ensures CountRequest(u, e.ip, e.kind, e.at).1 == VerdictOf(events, e)
  {
    RequestFollows(u, events, e.ip, e.kind, e.at);
  }

  lemma {:induction false} FollowsRun(events: seq<Event>)
    ensures Follows(ReferenceRun(map[], events), events)
    ensures ReferenceVerdicts(map[], events) == HistoryVerdicts(events)
    decreases |events|
  {
    if events == [] {
    } else {
      var before, e := events[..|events| - 1], events[|events| - 1];
      assert events == before + [e];
      FollowsRun(before);
      ReferenceLast(map[], before, e);
      FollowsStep(ReferenceRun(map[], before), before, e);
      if e.Request? {
        VerdictFollows(ReferenceRun(map[], before), before, e);
      }
    }
  }

  /**
   Main result: the unbounded limiter in closed form, for every run.  A request is admitted exactly if its
   address has made no more than the limit of its class, it included, since its window opened and since the
   last unban.
   */
  lemma ReferenceByHistory(events: seq<Event>)
    ensures ReferenceVerdicts(map[], events) == HistoryVerdicts(events)
  {
    FollowsRun(events);
  }

  /** So is the pruned and capped one: every verdict but the refusals for space, on the run without those. */
  lemma LimiterByHistory(events: seq<Event>, clock: Instant)
    requires Ordered(events, clock)
    ensures WithoutFull(Verdicts(map[], events)) == HistoryVerdicts(Counted(map[], events))
    ensures TableFull !in Verdicts(map[], events) ==> Verdicts(map[], events) == HistoryVerdicts(events)
  {
    PrunedLimiterRefinesUnbounded(events, clock);
    ReferenceByHistory(Counted(map[], events));
    if TableFull !in Verdicts(map[], events) {
      RefinesUntilFull(events, clock);
      ReferenceByHistory(events);
    }
  }
}
