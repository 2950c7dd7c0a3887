/**
 The fixed-window rate limiter of `state.rs`: one window per client address, three
 counters in it, a table that is pruned and capped.  `Check` and `Unban` say what one
 call does to the table; the run theorems below are about every sequence of calls with
 a nondecreasing clock.  Instants are nanoseconds.
 */
module RateLimit {

  type Instant = int

  const WINDOW: int := 60_000_000_000
  const MAX_RATE_ENTRIES: nat := 8192
  const U32_MAX: nat := 0xFFFF_FFFF

  datatype Class = Enroll | Allowed | Unrecognized {
    function Limit(): nat {
      match this
      case Enroll => 10
      case Allowed => 120
      case Unrecognized => 30
    }
  }

  datatype RateWindow = RateWindow(windowStart: Instant, enrollCount: nat, allowedCount: nat, unrecognizedCount: nat) {
    function Count(c: Class): nat {
      match c
      case Enroll => enrollCount
      case Allowed => allowedCount
      case Unrecognized => unrecognizedCount
    }

    function WithCount(c: Class, n: nat): RateWindow {
      match c
      case Enroll => this.(enrollCount := n)
      case Allowed => this.(allowedCount := n)
      case Unrecognized => this.(unrecognizedCount := n)
    }

    predicate Live(now: Instant) {
      DurationSince(now, windowStart) < WINDOW
    }
  }

  type Table = map<string, RateWindow>

  /** `Instant::duration_since`, which saturates at zero. */
  function DurationSince(later: Instant, earlier: Instant): nat {
    if later >= earlier then later - earlier else 0
  }

  function SaturatingSucc(n: nat): nat {
    if n >= U32_MAX then U32_MAX else n + 1
  }

  function FreshWindow(now: Instant): RateWindow {
    RateWindow(now, 0, 0, 0)
  }

  /** The entries whose window is still running. */
  function LiveEntries(t: Table, now: Instant): Table {
    t - (set ip | ip in t && !t[ip].Live(now))
  }

  /** The code answers a boolean; the two ways of refusing are told apart here. */
  datatype Verdict = Admitted | OverLimit | TableFull

  /** The counting half of the check, on a table that has room for the address. */
  function CountRequest(t: Table, ip: string, c: Class, now: Instant): (Table, Verdict) {
    var found := if ip in t then t[ip] else FreshWindow(now);
    var current := if found.Live(now) then found else FreshWindow(now);
    var counted := current.WithCount(c, SaturatingSucc(current.Count(c)));
    (t[ip := counted], if counted.Count(c) <= c.Limit() then Admitted else OverLimit)
  }

  function Pruned(t: Table, now: Instant): Table {
    if |t| >= MAX_RATE_ENTRIES then LiveEntries(t, now) else t
  }

  function Check(t: Table, ip: string, c: Class, now: Instant): (Table, Verdict) {
    var pruned := Pruned(t, now);
    if |pruned| >= MAX_RATE_ENTRIES && ip !in pruned then (pruned, TableFull)
    else CountRequest(pruned, ip, c, now)
  }

  function Unban(t: Table, ip: string, c: Class): Table {
    if ip in t then t[ip := t[ip].WithCount(c, 0)] else t
  }

  // ---------------------------------------------------------------- the object

  datatype Report = Report(ip: string, kind: Class, count: nat, limit: nat, startedAgo: nat)

  /** Whether the pair is over its limit in a running window. */
  predicate Limited(t: Table, ip: string, c: Class, now: Instant) {
    ip in t && t[ip].Live(now) && t[ip].Count(c) > c.Limit()
  }

  function ReportFor(t: Table, ip: string, c: Class, now: Instant): Report
    requires ip in t
  {
    Report(ip, c, t[ip].Count(c), c.Limit(), DurationSince(now, t[ip].windowStart))
  }

  /** A report says what the table holds of a pair over its limit. */
  predicate Reports(t: Table, r: Report, now: Instant) {
    Limited(t, r.ip, r.kind, now) && r == ReportFor(t, r.ip, r.kind, now)
  }

  class RateLimiter {
    var rateLimits: Table

    constructor ()
      ensures rateLimits == map[]
    {
      rateLimits := map[];
    }

    method CheckRateLimit(clientIp: string, c: Class, now: Instant) returns (admitted: bool)
      modifies this
      ensures rateLimits == Check(old(rateLimits), clientIp, c, now).0
      ensures admitted <==> Check(old(rateLimits), clientIp, c, now).1 == Admitted
    {
      if |rateLimits| >= MAX_RATE_ENTRIES {
        rateLimits := rateLimits - (set ip | ip in rateLimits && !rateLimits[ip].Live(now));
      }
      if |rateLimits| >= MAX_RATE_ENTRIES && clientIp !in rateLimits {
        return false;
      }
      var entry := if clientIp in rateLimits then rateLimits[clientIp] else FreshWindow(now);
      if DurationSince(now, entry.windowStart) >= WINDOW {
        entry := entry.(windowStart := now, enrollCount := 0, allowedCount := 0, unrecognizedCount := 0);
      }
      var count := SaturatingSucc(entry.Count(c));
      entry := entry.WithCount(c, count);
      rateLimits := rateLimits[clientIp := entry];
      admitted := count <= c.Limit();
    }

    method ClearRateLimit(clientIp: string, c: Class)
      modifies this
      ensures rateLimits == Unban(old(rateLimits), clientIp, c)
    {
      if clientIp in rateLimits {
        rateLimits := rateLimits[clientIp := rateLimits[clientIp].WithCount(c, 0)];
      }
    }

    /** The heartbeat's report: exactly one entry for each pair over its limit, with its figures. */
    method ListLimitedRateLimits(now: Instant) returns (out: seq<Report>)
      ensures forall r <- out :: Limited(rateLimits, r.ip, r.kind, now) && r == ReportFor(rateLimits, r.ip, r.kind, now)
      ensures forall ip, c :: Limited(rateLimits, ip, c, now) ==> ReportFor(rateLimits, ip, c, now) in out
      ensures forall i, j :: 0 <= i < j < |out| ==> out[i] != out[j]
    {
      out := [];
      var pending := rateLimits.Keys;
      while pending != {}
        invariant pending <= rateLimits.Keys
        invariant forall r <- out :: r.ip !in pending && Reports(rateLimits, r, now)
        invariant forall ip, c :: Limited(rateLimits, ip, c, now) && ip !in pending ==>
                    ReportFor(rateLimits, ip, c, now) in out
        invariant forall i, j :: 0 <= i < j < |out| ==> out[i] != out[j]
        decreases |pending|
      {
        var ip :| ip in pending;
        pending := pending - {ip};
        var window := rateLimits[ip];
        if DurationSince(now, window.windowStart) >= WINDOW { continue; }
        var classes := [Enroll, Allowed, Unrecognized];
        ghost var before := out;
        for k := 0 to |classes|
          invariant forall r <- before :: r in out
          invariant forall r <- out :: r in before || (r.ip == ip && r.kind in classes[..k])
          invariant forall r <- out :: r.ip !in pending && Reports(rateLimits, r, now)
          invariant forall c <- classes[..k] :: Limited(rateLimits, ip, c, now) ==>
                      ReportFor(rateLimits, ip, c, now) in out
          invariant forall i, j :: 0 <= i < j < |out| ==> out[i] != out[j]
        {
          var c := classes[k];
          var count, limit := window.Count(c), c.Limit();
          if count > limit {
            var entry := Report(ip, c, count, limit, DurationSince(now, window.windowStart));
            assert entry !in out;
            out := out + [entry];
          }
        }
        assert classes[..3] == classes;
        forall c: Class ensures c in classes {
          assert c == classes[0] || c == classes[1] || c == classes[2];
        }
      }
    }
  }

  // ---------------------------------------------------------------- runs

  datatype Event =
    | Request(ip: string, kind: Class, at: Instant)
    | Clear(ip: string, kind: Class, at: Instant)

  function Apply(t: Table, e: Event): Table {
    match e
    case Request(ip, c, at) => Check(t, ip, c, at).0
    case Clear(ip, c, at) => Unban(t, ip, c)
  }

  predicate Admits(t: Table, e: Event) {
    e.Request? && Check(t, e.ip, e.kind, e.at).1 == Admitted
  }

  /** The clock never runs backwards. */
  predicate Ordered(events: seq<Event>, clock: Instant) {
    events == [] || (clock <= events[0].at && Ordered(events[1..], events[0].at))
  }

  /** No window starts in the future. */
  predicate Stamped(t: Table, clock: Instant) {
    forall ip <- t :: t[ip].windowStart <= clock
  }

  predicate Concerns(e: Event, ip: string, c: Class, start: Instant) {
    e.ip == ip && e.kind == c && start <= e.at < start + WINDOW
  }

  /** Requests of one address and class admitted in the half-open minute that begins at `start`. */
  function AdmittedIn(t: Table, events: seq<Event>, ip: string, c: Class, start: Instant): nat
    decreases |events|
  {
    if events == [] then 0
    else (if Concerns(events[0], ip, c, start) && Admits(t, events[0]) then 1 else 0)
         + AdmittedIn(Apply(t, events[0]), events[1..], ip, c, start)
  }

  function UnbansIn(events: seq<Event>, ip: string, c: Class, start: Instant): nat {
    if events == [] then 0
    else (if events[0].Clear? && Concerns(events[0], ip, c, start) then 1 else 0)
         + UnbansIn(events[1..], ip, c, start)
  }

  /** How many more requests can be admitted before `start + WINDOW`, with no unban. */
  function Allowance(t: Table, ip: string, c: Class, clock: Instant, start: Instant): nat {
    if clock >= start + WINDOW then 0
    else if ip in t && t[ip].Live(clock) then
      (if t[ip].Count(c) < c.Limit() then c.Limit() - t[ip].Count(c) else 0)
      + (if t[ip].windowStart + WINDOW < start + WINDOW then c.Limit() else 0)
    else c.Limit()
  }

  lemma WaitingGainsNothing(t: Table, ip: string, c: Class, clock: Instant, now: Instant, start: Instant)
    requires start <= clock <= now && Stamped(t, clock)
    ensures Allowance(t, ip, c, now, start) <= Allowance(t, ip, c, clock, start)
  {
  }

  /** Counting touches one window and one counter; it never adds allowance and a request it admits spends one. */
  lemma CountSpendsAllowance(t: Table, ip0: string, c0: Class, ip: string, c: Class, now: Instant, start: Instant)
    requires start <= now < start + WINDOW && Stamped(t, now)
    ensures (if ip0 == ip && c0 == c && CountRequest(t, ip0, c0, now).1 == Admitted then 1 else 0)
            + Allowance(CountRequest(t, ip0, c0, now).0, ip, c, now, start)
         <= Allowance(t, ip, c, now, start)
  {
  }

  lemma PruningKeepsAllowance(t: Table, ip: string, c: Class, now: Instant, start: Instant)
    ensures Allowance(LiveEntries(t, now), ip, c, now, start) == Allowance(t, ip, c, now, start)
  {
  }

  lemma UnbanRefillsAllowance(t: Table, ip0: string, c0: Class, ip: string, c: Class, now: Instant, start: Instant)
    ensures Allowance(Unban(t, ip0, c0), ip, c, now, start)
         <= Allowance(t, ip, c, now, start) + (if ip0 == ip && c0 == c && now < start + WINDOW then c.Limit() else 0)
  {
  }

  /** One call spends the allowance it uses; only an unban refills it, by one limit. */
  lemma StepSpendsAllowance(t: Table, e: Event, ip: string, c: Class, clock: Instant, start: Instant)
    requires start <= clock <= e.at && Stamped(t, clock)
    ensures (if Concerns(e, ip, c, start) && Admits(t, e) then 1 else 0) + Allowance(Apply(t, e), ip, c, e.at, start)
         <= Allowance(t, ip, c, clock, start) + (if e.Clear? && Concerns(e, ip, c, start) then c.Limit() else 0)
  {
    WaitingGainsNothing(t, ip, c, clock, e.at, start);
    if e.at < start + WINDOW {
      if e.Request? {
        PruningKeepsAllowance(t, ip, c, e.at, start);
        var pruned := Pruned(t, e.at);
        CountSpendsAllowance(pruned, e.ip, e.kind, ip, c, e.at, start);
      } else {
        UnbanRefillsAllowance(t, e.ip, e.kind, ip, c, e.at, start);
      }
    }
  }

  lemma {:induction false} AllowanceBound(t: Table, events: seq<Event>, ip: string, c: Class, clock: Instant,
                                          start: Instant)
    requires start <= clock && Ordered(events, clock) && Stamped(t, clock)
    ensures AdmittedIn(t, events, ip, c, start)
         <= Allowance(t, ip, c, clock, start) + UnbansIn(events, ip, c, start) * c.Limit()
    decreases |events|
  {
    if events == [] {
    } else {
      StepSpendsAllowance(t, events[0], ip, c, clock, start);
      StampedStep(t, events[0], clock);
      AllowanceBound(Apply(t, events[0]), events[1..], ip, c, events[0].at, start);
    }
  }

  lemma StampedStep(t: Table, e: Event, clock: Instant)
    requires clock <= e.at && Stamped(t, clock)
    ensures Stamped(Apply(t, e), e.at)
  {
  }

  lemma {:induction false} RateBoundFrom(t: Table, events: seq<Event>, ip: string, c: Class, clock: Instant,
                                         start: Instant)
    requires Ordered(events, clock) && Stamped(t, clock)
    ensures AdmittedIn(t, events, ip, c, start) <= (2 + UnbansIn(events, ip, c, start)) * c.Limit()
    decreases |events|
  {
    if events == [] {
    } else {
      if events[0].at < start {
        StampedStep(t, events[0], clock);
        RateBoundFrom(Apply(t, events[0]), events[1..], ip, c, events[0].at, start);
      } else {
        AllowanceBound(t, events, ip, c, events[0].at, start);
        AllowanceAtMostTwice(t, ip, c, events[0].at, start, UnbansIn(events, ip, c, start));
      }
    }
  }

  lemma AllowanceAtMostTwice(t: Table, ip: string, c: Class, clock: Instant, start: Instant, unbans: nat)
    ensures Allowance(t, ip, c, clock, start) + unbans * c.Limit() <= (2 + unbans) * c.Limit()
  {
    assert (2 + unbans) * c.Limit() == 2 * c.Limit() + unbans * c.Limit();
  }

  /** Main result: whatever the run, a minute admits at most twice the limit, plus one limit for each unban in it. */
  lemma RateBound(events: seq<Event>, ip: string, c: Class, clock: Instant, start: Instant)
    requires Ordered(events, clock)
    ensures AdmittedIn(map[], events, ip, c, start) <= (2 + UnbansIn(events, ip, c, start)) * c.Limit()
  {
    RateBoundFrom(map[], events, ip, c, clock, start);
  }

  // ---------------------------------------------------------------- the bound is attained

  function Repeat(n: nat, e: Event): seq<Event> {
    seq(n, _ => e)
  }

  /** A class that opens the shared window without spending the quota of `c`. */
  function OtherClass(c: Class): Class {
    if c == Enroll then Allowed else Enroll
  }

  /** As many requests as the limit, `unbans` times an unban and as many again. */
  function UnbannedBursts(ip: string, c: Class, unbans: nat, at: Instant): seq<Event> {
    Repeat(c.Limit(), Request(ip, c, at))
    + (if unbans == 0 then [] else [Clear(ip, c, at)] + UnbannedBursts(ip, c, unbans - 1, at))
  }

  /** Another class opens the window early; the bursts come at its end, one more when the next begins. */
  function StraddlingBurst(ip: string, c: Class, unbans: nat): seq<Event> {
    [Request(ip, OtherClass(c), 0)]
    + (UnbannedBursts(ip, c, unbans, WINDOW - 1) + Repeat(c.Limit(), Request(ip, c, WINDOW)))
  }

  /** The table after `n` more requests counted in the running window of `ip`. */
  function Spend(t: Table, ip: string, c: Class, n: nat): Table
    requires ip in t
  {
    t[ip := t[ip].WithCount(c, t[ip].Count(c) + n)]
  }

  lemma SpendAdds(t: Table, ip: string, c: Class, m: nat, n: nat)
    requires ip in t
    ensures Spend(Spend(t, ip, c, m), ip, c, n) == Spend(t, ip, c, m + n)
  {
  }

  lemma OneAdmitted(t: Table, ip: string, c: Class, at: Instant)
    requires ip in t && t[ip].Live(at) && t[ip].Count(c) < c.Limit() && |t| < MAX_RATE_ENTRIES
    ensures Check(t, ip, c, at) == (Spend(t, ip, c, 1), Admitted)
    ensures |Spend(t, ip, c, 1)| < MAX_RATE_ENTRIES
  {
    SubmapSize(Spend(t, ip, c, 1), t);
  }

  lemma RepeatUnfolds(n: nat, e: Event, rest: seq<Event>)
    ensures n == 0 ==> Repeat(n, e) + rest == rest
    ensures n > 0 ==> Repeat(n, e) + rest == [e] + (Repeat(n - 1, e) + rest)
  {
  }

  lemma {:induction false} BurstIsAdmitted(t: Table, n: nat, ip: string, c: Class, at: Instant, rest: seq<Event>,
                                           start: Instant)
    requires ip in t && t[ip].Live(at) && t[ip].Count(c) + n <= c.Limit()
    requires start <= at < start + WINDOW && |t| < MAX_RATE_ENTRIES
    ensures AdmittedIn(t, Repeat(n, Request(ip, c, at)) + rest, ip, c, start)
         == n + AdmittedIn(Spend(t, ip, c, n), rest, ip, c, start)
    decreases n
  {
    var e := Request(ip, c, at);
    RepeatUnfolds(n, e, rest);
    if n == 0 {
      assert Spend(t, ip, c, 0) == t;
    } else {
      OneAdmitted(t, ip, c, at);
      AdmittedCons(t, e, Repeat(n - 1, e) + rest, ip, c, start);
      BurstIsAdmitted(Spend(t, ip, c, 1), n - 1, ip, c, at, rest, start);
      SpendAdds(t, ip, c, 1, n - 1);
    }
  }

  lemma AdmittedCons(t: Table, e: Event, rest: seq<Event>, ip: string, c: Class, start: Instant)
    ensures AdmittedIn(t, [e] + rest, ip, c, start)
         == (if Concerns(e, ip, c, start) && Admits(t, e) then 1 else 0) + AdmittedIn(Apply(t, e), rest, ip, c, start)
  {
    assert ([e] + rest)[1..] == rest;
  }

  lemma RepeatOrdered(n: nat, e: Event, rest: seq<Event>, clock: Instant)
    requires clock <= e.at && Ordered(rest, e.at)
    ensures Ordered(Repeat(n, e) + rest, clock)
    decreases n
  {
    var all := Repeat(n, e) + rest;
    if n == 0 {
      assert all == rest;
    } else {
      assert all[0] == e && all[1..] == Repeat(n - 1, e) + rest;
      RepeatOrdered(n - 1, e, rest, e.at);
    }
  }

  lemma UnbanCons(t: Table, ip: string, c: Class, at: Instant, rest: seq<Event>, start: Instant)
    requires start <= at < start + WINDOW
    ensures AdmittedIn(t, [Clear(ip, c, at)] + rest, ip, c, start) == AdmittedIn(Unban(t, ip, c), rest, ip, c, start)
    ensures UnbansIn([Clear(ip, c, at)] + rest, ip, c, start) == 1 + UnbansIn(rest, ip, c, start)
  {
    assert ([Clear(ip, c, at)] + rest)[1..] == rest;
  }

  lemma {:induction false} RepeatHasNoUnbans(n: nat, ip: string, c: Class, at: Instant, rest: seq<Event>,
                                             start: Instant)
    ensures UnbansIn(Repeat(n, Request(ip, c, at)) + rest, ip, c, start) == UnbansIn(rest, ip, c, start)
  {
    var e := Request(ip, c, at);
    RepeatUnfolds(n, e, rest);
    if n == 0 {
    } else {
      assert ([e] + (Repeat(n - 1, e) + rest))[1..] == Repeat(n - 1, e) + rest;
      RepeatHasNoUnbans(n - 1, ip, c, at, rest, start);
    }
  }

  lemma BurstsUnfold(ip: string, c: Class, unbans: nat, at: Instant, rest: seq<Event>)
    ensures UnbannedBursts(ip, c, unbans, at) + rest
         == Repeat(c.Limit(), Request(ip, c, at))
            + (if unbans == 0 then rest else [Clear(ip, c, at)] + (UnbannedBursts(ip, c, unbans - 1, at) + rest))
  {
  }

  lemma {:induction false} BurstsOrdered(ip: string, c: Class, unbans: nat, at: Instant, rest: seq<Event>,
                                         clock: Instant)
    requires clock <= at && Ordered(rest, at)
    ensures Ordered(UnbannedBursts(ip, c, unbans, at) + rest, clock)
    decreases unbans
  {
    var e := Request(ip, c, at);
    BurstsUnfold(ip, c, unbans, at, rest);
    if unbans == 0 {
      RepeatOrdered(c.Limit(), e, rest, clock);
    } else {
      var tail := UnbannedBursts(ip, c, unbans - 1, at) + rest;
      BurstsOrdered(ip, c, unbans - 1, at, rest, at);
      assert ([Clear(ip, c, at)] + tail)[1..] == tail;
      RepeatOrdered(c.Limit(), e, [Clear(ip, c, at)] + tail, clock);
    }
  }

  lemma OneMoreQuota(n: nat, limit: nat)
    ensures (n + 1) * limit == n * limit + limit
  {
  }

  lemma {:induction false} BurstsHaveTheirUnbans(ip: string, c: Class, unbans: nat, at: Instant, rest: seq<Event>,
                                                 start: Instant)
    requires start <= at < start + WINDOW
    ensures UnbansIn(UnbannedBursts(ip, c, unbans, at) + rest, ip, c, start) == unbans + UnbansIn(rest, ip, c, start)
    decreases unbans
  {
    BurstsUnfold(ip, c, unbans, at, rest);
    if unbans == 0 {
      RepeatHasNoUnbans(c.Limit(), ip, c, at, rest, start);
    } else {
      var tail := UnbannedBursts(ip, c, unbans - 1, at) + rest;
      RepeatHasNoUnbans(c.Limit(), ip, c, at, [Clear(ip, c, at)] + tail, start);
      UnbanCons(map[], ip, c, at, tail, start);
      BurstsHaveTheirUnbans(ip, c, unbans - 1, at, rest, start);
    }
  }

  /** An unban after a full burst gives the window back as it was. */
  lemma UnbanUndoesBurst(t: Table, ip: string, c: Class)
    requires ip in t && t[ip].Count(c) == 0
    ensures Unban(Spend(t, ip, c, c.Limit()), ip, c) == t
  {
  }

  lemma BurstThenUnban(t: Table, ip: string, c: Class, at: Instant, rest: seq<Event>, start: Instant)
    requires ip in t && t[ip].Live(at) && t[ip].Count(c) == 0 && start <= at < start + WINDOW && |t| < MAX_RATE_ENTRIES
    ensures AdmittedIn(t, Repeat(c.Limit(), Request(ip, c, at)) + ([Clear(ip, c, at)] + rest), ip, c, start)
         == c.Limit() + AdmittedIn(t, rest, ip, c, start)
  {
    BurstIsAdmitted(t, c.Limit(), ip, c, at, [Clear(ip, c, at)] + rest, start);
    UnbanCons(Spend(t, ip, c, c.Limit()), ip, c, at, rest, start);
    UnbanUndoesBurst(t, ip, c);
  }

  /** Each burst is admitted, and leaves the window where it was with its quota used up. */
  lemma {:induction false} BurstsAreAdmitted(t: Table, unbans: nat, ip: string, c: Class, at: Instant, rest: seq<Event>,
                                             start: Instant)
    requires ip in t && t[ip].Live(at) && t[ip].Count(c) == 0 && start <= at < start + WINDOW && |t| < MAX_RATE_ENTRIES
    ensures AdmittedIn(t, UnbannedBursts(ip, c, unbans, at) + rest, ip, c, start)
         == (unbans + 1) * c.Limit() + AdmittedIn(Spend(t, ip, c, c.Limit()), rest, ip, c, start)
    decreases unbans
  {
    BurstsUnfold(ip, c, unbans, at, rest);
    if unbans == 0 {
      BurstIsAdmitted(t, c.Limit(), ip, c, at, rest, start);
    } else {
      BurstThenUnban(t, ip, c, at, UnbannedBursts(ip, c, unbans - 1, at) + rest, start);
      BurstsAreAdmitted(t, unbans - 1, ip, c, at, rest, start);
      OneMoreQuota(unbans, c.Limit());
    }
  }

  lemma OpeningBurst(ip: string, c: Class, unbans: nat)
    ensures var t0 := map[ip := FreshWindow(0).WithCount(OtherClass(c), 1)];
            var bursts := UnbannedBursts(ip, c, unbans, WINDOW - 1) + Repeat(c.Limit(), Request(ip, c, WINDOW));
            && StraddlingBurst(ip, c, unbans) == [Request(ip, OtherClass(c), 0)] + bursts
            && AdmittedIn(map[], StraddlingBurst(ip, c, unbans), ip, c, WINDOW - 1)
               == AdmittedIn(t0, bursts, ip, c, WINDOW - 1)
            && UnbansIn(StraddlingBurst(ip, c, unbans), ip, c, WINDOW - 1) == UnbansIn(bursts, ip, c, WINDOW - 1)
  {
    var opening := Request(ip, OtherClass(c), 0);
    var bursts := UnbannedBursts(ip, c, unbans, WINDOW - 1) + Repeat(c.Limit(), Request(ip, c, WINDOW));
    assert ([opening] + bursts)[1..] == bursts;
    assert Apply(map[], opening) == map[ip := FreshWindow(0).WithCount(OtherClass(c), 1)];
    AdmittedCons(map[], opening, bursts, ip, c, WINDOW - 1);
  }

  lemma StraddlingOrdered(ip: string, c: Class, unbans: nat)
    ensures Ordered(StraddlingBurst(ip, c, unbans), 0)
  {
    var second := Repeat(c.Limit(), Request(ip, c, WINDOW));
    var bursts := UnbannedBursts(ip, c, unbans, WINDOW - 1) + second;
    assert second == second + [] && StraddlingBurst(ip, c, unbans)[1..] == bursts;
    RepeatOrdered(c.Limit(), Request(ip, c, WINDOW), [], WINDOW - 1);
    BurstsOrdered(ip, c, unbans, WINDOW - 1, second, 0);
  }

  /**
   The bound is exact for every number of unbans: the window is shared by the classes, so another class can open it
   early.
   */
  lemma RateBoundIsTight(ip: string, c: Class, unbans: nat)
    ensures Ordered(StraddlingBurst(ip, c, unbans), 0)
    ensures UnbansIn(StraddlingBurst(ip, c, unbans), ip, c, WINDOW - 1) == unbans
    ensures AdmittedIn(map[], StraddlingBurst(ip, c, unbans), ip, c, WINDOW - 1) == (2 + unbans) * c.Limit()
  {
    var t0 := map[ip := FreshWindow(0).WithCount(OtherClass(c), 1)];
    var second := Repeat(c.Limit(), Request(ip, c, WINDOW));
    StraddlingOrdered(ip, c, unbans);
    OpeningBurst(ip, c, unbans);
    BurstsHaveTheirUnbans(ip, c, unbans, WINDOW - 1, second, WINDOW - 1);
    assert second == second + [];
    RepeatHasNoUnbans(c.Limit(), ip, c, WINDOW, [], WINDOW - 1);
    BurstsAreAdmitted(t0, unbans, ip, c, WINDOW - 1, second, WINDOW - 1);
    LateBurst(Spend(t0, ip, c, c.Limit()), ip, c);
    OneMoreQuota(unbans + 1, c.Limit());
  }

  /** A minute after the window opened, a fresh one admits a full quota. */
  lemma LateBurst(t: Table, ip: string, c: Class)
    requires ip in t && t[ip].windowStart == 0 && |t| < MAX_RATE_ENTRIES
    ensures AdmittedIn(t, Repeat(c.Limit(), Request(ip, c, WINDOW)), ip, c, WINDOW - 1) == c.Limit()
  {
    var n, late := c.Limit() - 1, Request(ip, c, WINDOW);
    var rest := Repeat(n, late) + [];
    assert Repeat(c.Limit(), late) == [late] + rest;
    var t' := t[ip := FreshWindow(WINDOW).WithCount(c, 1)];
    assert Check(t, ip, c, WINDOW) == (t', Admitted);
    SubmapSize(t', t);
    AdmittedCons(t, late, rest, ip, c, WINDOW - 1);
    BurstIsAdmitted(t', n, ip, c, WINDOW, [], WINDOW - 1);
  }

  // ---------------------------------------------------------------- refinement of the unbounded limiter

  /** One verdict for each request of the run. */
  function Verdicts(t: Table, events: seq<Event>): seq<Verdict>
    decreases |events|
  {
    if events == [] then []
    else (if events[0].Request? then [Check(t, events[0].ip, events[0].kind, events[0].at).1] else [])
         + Verdicts(Apply(t, events[0]), events[1..])
  }

  /** The reference: a map that is never pruned and never full. */
  function ReferenceApply(u: Table, e: Event): Table {
    match e
    case Request(ip, c, at) => CountRequest(u, ip, c, at).0
    case Clear(ip, c, at) => Unban(u, ip, c)
  }

  function ReferenceVerdicts(u: Table, events: seq<Event>): seq<Verdict>
    decreases |events|
  {
    if events == [] then []
    else (if events[0].Request? then [CountRequest(u, events[0].ip, events[0].kind, events[0].at).1] else [])
         + ReferenceVerdicts(ReferenceApply(u, events[0]), events[1..])
  }

  predicate RefusedForSpace(t: Table, e: Event) {
    e.Request? && Check(t, e.ip, e.kind, e.at).1 == TableFull
  }

  /** The run without the requests that found the table full. */
  function Counted(t: Table, events: seq<Event>): seq<Event>
    decreases |events|
  {
    if events == [] then []
    else (if RefusedForSpace(t, events[0]) then [] else [events[0]])
         + Counted(Apply(t, events[0]), events[1..])
  }

  function WithoutFull(vs: seq<Verdict>): seq<Verdict> {
    if vs == [] then [] else (if vs[0] == TableFull then [] else [vs[0]]) + WithoutFull(vs[1..])
  }

  lemma LiveEntriesLater(t: Table, u: Table, clock: Instant, now: Instant)
    requires clock <= now && LiveEntries(t, clock) == LiveEntries(u, clock)
    requires Stamped(t, clock) && Stamped(u, clock)
    ensures LiveEntries(t, now) == LiveEntries(u, now)
  {
    forall ip
      ensures ip in LiveEntries(t, now) <==> ip in LiveEntries(u, now)
      ensures ip in LiveEntries(t, now) ==> LiveEntries(t, now)[ip] == LiveEntries(u, now)[ip]
    {
      assert ip in LiveEntries(t, clock) <==> ip in LiveEntries(u, clock);
    }
  }

  /** One counted request has the same verdict, and leaves the same running windows, in both limiters. */
  lemma CountAgrees(t: Table, u: Table, ip: string, c: Class, now: Instant)
    requires LiveEntries(t, now) == LiveEntries(u, now)
    ensures CountRequest(t, ip, c, now).1 == CountRequest(u, ip, c, now).1
    ensures LiveEntries(CountRequest(t, ip, c, now).0, now) == LiveEntries(CountRequest(u, ip, c, now).0, now)
  {
    assert ip in LiveEntries(t, now) <==> ip in LiveEntries(u, now);
    var t', u' := CountRequest(t, ip, c, now).0, CountRequest(u, ip, c, now).0;
    assert t'[ip] == u'[ip];
    forall other | other != ip
      ensures other in LiveEntries(t', now) <==> other in LiveEntries(u', now)
      ensures other in LiveEntries(t', now) ==> t'[other] == u'[other]
    {
      assert other in LiveEntries(t, now) <==> other in LiveEntries(u, now);
    }
  }

  lemma UnbanAgrees(t: Table, u: Table, ip: string, c: Class, now: Instant)
    requires LiveEntries(t, now) == LiveEntries(u, now)
    ensures LiveEntries(Unban(t, ip, c), now) == LiveEntries(Unban(u, ip, c), now)
  {
    var t', u' := Unban(t, ip, c), Unban(u, ip, c);
    forall other
      ensures other in LiveEntries(t', now) <==> other in LiveEntries(u', now)
      ensures other in LiveEntries(t', now) ==> t'[other] == u'[other]
    {
      assert other in LiveEntries(t, now) <==> other in LiveEntries(u, now);
    }
  }

  lemma PruneKeepsLive(t: Table, now: Instant)
    ensures LiveEntries(Pruned(t, now), now) == LiveEntries(t, now)
  {
  }

  /** One request of both limiters, from tables with the same running windows. */
  lemma CheckAgrees(t: Table, u: Table, ip: string, c: Class, now: Instant)
    requires LiveEntries(t, now) == LiveEntries(u, now)
    ensures var (t', verdict) := Check(t, ip, c, now);
            if verdict == TableFull then LiveEntries(t', now) == LiveEntries(u, now)
            else && LiveEntries(t', now) == LiveEntries(CountRequest(u, ip, c, now).0, now)
                 && verdict == CountRequest(u, ip, c, now).1
  {
    PruneKeepsLive(t, now);
    CountAgrees(Pruned(t, now), u, ip, c, now);
  }

  /** One step of both limiters, a request refused for space being none for the reference. */
  lemma StepAgrees(t: Table, u: Table, e: Event, clock: Instant)
    requires clock <= e.at && Stamped(t, clock) && Stamped(u, clock)
    requires LiveEntries(t, clock) == LiveEntries(u, clock)
    ensures RefusedForSpace(t, e) ==> LiveEntries(Apply(t, e), e.at) == LiveEntries(u, e.at)
    ensures !RefusedForSpace(t, e) ==> LiveEntries(Apply(t, e), e.at) == LiveEntries(ReferenceApply(u, e), e.at)
    ensures !RefusedForSpace(t, e) && e.Request? ==>
              Check(t, e.ip, e.kind, e.at).1 == CountRequest(u, e.ip, e.kind, e.at).1
  {
    LiveEntriesLater(t, u, clock, e.at);
    match e
    case Clear(ip, c, at) => UnbanAgrees(t, u, ip, c, at);
    case Request(ip, c, at) => CheckAgrees(t, u, ip, c, at);
  }

  lemma ReferenceStampedStep(u: Table, e: Event, clock: Instant)
    requires clock <= e.at && Stamped(u, clock)
    ensures Stamped(ReferenceApply(u, e), e.at) && Stamped(u, e.at)
  {
  }

  lemma {:induction false} RefinesFrom(t: Table, u: Table, events: seq<Event>, clock: Instant)
    requires Ordered(events, clock) && Stamped(t, clock) && Stamped(u, clock)
    requires LiveEntries(t, clock) == LiveEntries(u, clock)
    ensures WithoutFull(Verdicts(t, events)) == ReferenceVerdicts(u, Counted(t, events))
    decreases |events|
  {
    if events == [] {
    } else {
      var e, rest := events[0], events[1..];
      var t', u' := Apply(t, e), if RefusedForSpace(t, e) then u else ReferenceApply(u, e);
      StepAgrees(t, u, e, clock);
      StampedStep(t, e, clock);
      ReferenceStampedStep(u, e, clock);
      RefinesFrom(t', u', rest, e.at);
      var head := if e.Request? then [Check(t, e.ip, e.kind, e.at).1] else [];
      WithoutFullAppend(head, Verdicts(t', rest));
      assert Verdicts(t, events) == head + Verdicts(t', rest);
      if RefusedForSpace(t, e) {
        assert Counted(t, events) == Counted(t', rest);
      } else {
        assert Counted(t, events) == [e] + Counted(t', rest);
        ReferenceCons(u, e, Counted(t', rest));
      }
    }
  }

  lemma ReferenceCons(u: Table, e: Event, rest: seq<Event>)
    ensures ReferenceVerdicts(u, [e] + rest)
         == (if e.Request? then [CountRequest(u, e.ip, e.kind, e.at).1] else [])
            + ReferenceVerdicts(ReferenceApply(u, e), rest)
  {
    assert ([e] + rest)[1..] == rest;
  }

  lemma WithoutFullAppend(head: seq<Verdict>, tail: seq<Verdict>)
    requires |head| <= 1
    ensures WithoutFull(head + tail) == (if head == [TableFull] then [] else head) + WithoutFull(tail)
  {
    if head == [] {
      assert head + tail == tail;
    } else {
      assert (head + tail)[1..] == tail;
    }
  }

  /**
   Main result: drop the requests refused because the table was full, and every other verdict is
   that of the unbounded, never-pruned limiter that never saw the dropped ones.
   */
  lemma PrunedLimiterRefinesUnbounded(events: seq<Event>, clock: Instant)
    requires Ordered(events, clock)
    ensures WithoutFull(Verdicts(map[], events)) == ReferenceVerdicts(map[], Counted(map[], events))
  {
    RefinesFrom(map[], map[], events, clock);
  }

  lemma {:induction false} NothingDropped(t: Table, events: seq<Event>)
    requires TableFull !in Verdicts(t, events)
    ensures WithoutFull(Verdicts(t, events)) == Verdicts(t, events) && Counted(t, events) == events
    decreases |events|
  {
    if events == [] {
    } else {
      var e := events[0];
      var head := if e.Request? then [Check(t, e.ip, e.kind, e.at).1] else [];
      var rest := Verdicts(Apply(t, e), events[1..]);
      assert Verdicts(t, events) == head + rest;
      NothingDropped(Apply(t, e), events[1..]);
      WithoutFullAppend(head, rest);
    }
  }

  /** Until the first capacity refusal every decision is the unbounded limiter's. */
  lemma RefinesUntilFull(events: seq<Event>, clock: Instant)
    requires Ordered(events, clock) && TableFull !in Verdicts(map[], events)
    ensures Verdicts(map[], events) == ReferenceVerdicts(map[], events)
  {
    PrunedLimiterRefinesUnbounded(events, clock);
    NothingDropped(map[], events);
  }

  // ---------------------------------------------------------------- capacity

  lemma SubmapSize(small: Table, big: Table)
    requires small.Keys <= big.Keys
    ensures |small| <= |big|
    ensures |small| == |big| ==> small.Keys == big.Keys
  {
    var extra := big.Keys - small.Keys;
    assert big.Keys == small.Keys + extra;
    assert |big.Keys| == |small.Keys| + |extra|;
  }

  /**
   A request is refused for space exactly when 8192 other addresses have running windows; the cap holds throughout.
   */
  lemma FullExactlyWhenLiveTableIs(t: Table, ip: string, c: Class, now: Instant)
    requires |t| <= MAX_RATE_ENTRIES
    ensures Check(t, ip, c, now).1 == TableFull <==>
              |LiveEntries(t, now)| == MAX_RATE_ENTRIES && ip !in LiveEntries(t, now)
    ensures |Check(t, ip, c, now).0| <= MAX_RATE_ENTRIES
  {
    var live := LiveEntries(t, now);
    SubmapSize(live, t);
    if ip in t && |live| == MAX_RATE_ENTRIES {
      assert ip in live.Keys;
    }
  }

  function Final(t: Table, events: seq<Event>): Table
    decreases |events|
  {
    if events == [] then t else Final(Apply(t, events[0]), events[1..])
  }

  lemma {:induction false} TableNeverExceedsCap(t: Table, events: seq<Event>)
    requires |t| <= MAX_RATE_ENTRIES
    ensures |Final(t, events)| <= MAX_RATE_ENTRIES
    decreases |events|
  {
    if events == [] {
    } else {
      var e := events[0];
      if e.Request? {
        FullExactlyWhenLiveTableIs(t, e.ip, e.kind, e.at);
      } else {
        SubmapSize(Unban(t, e.ip, e.kind), t);
      }
      TableNeverExceedsCap(Apply(t, e), events[1..]);
    }
  }

  /**
   What the heartbeat reports is what the limiter refuses: a refusal makes the pair reported, a reported pair is
   refused.
   */
  lemma ReportedPairsAreRefused(t: Table, ip: string, c: Class, now: Instant)
    ensures Check(t, ip, c, now).1 == OverLimit ==> Limited(Check(t, ip, c, now).0, ip, c, now)
    ensures Limited(t, ip, c, now) ==> Check(t, ip, c, now).1 == OverLimit
  {
    if Limited(t, ip, c, now) {
      assert ip in LiveEntries(t, now);
    }
  }
}
