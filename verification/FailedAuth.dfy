/** The failed-authentication limiter: a counter per remote address over a fixed
    window that opens at the address's own first failure. Instants are integers
    (nanoseconds). Three things are related here: the map the limiter keeps and
    prunes, a log of failures that is never pruned, and the runs of requests that
    check, are served and then record. */
module FailedAuth {

  const DEFAULT_LIMIT := 10
  const DEFAULT_WINDOW := 60_000_000_000

  datatype Entry = Entry(count: int, expiresAt: int)

  type Entries = map<string, Entry>

  // ---------------------------------------------------------------- the map

  predicate Expired(entry: Entry, now: int) {
    now >= entry.expiresAt
  }

  predicate Admits(entries: Entries, limit: int, ip: string, now: int) {
    ip == "" || ip !in entries || Expired(entries[ip], now) || entries[ip].count < limit
  }

  function AfterAllow(entries: Entries, ip: string, now: int): Entries {
    if ip != "" && ip in entries && Expired(entries[ip], now) then entries - {ip} else entries
  }

  function AfterFailure(entries: Entries, window: int, ip: string, now: int): Entries {
    if ip == "" then entries
    else if ip !in entries || Expired(entries[ip], now) then entries[ip := Entry(1, now + window)]
    else entries[ip := Entry(entries[ip].count + 1, entries[ip].expiresAt)]
  }

  function AfterCleanup(entries: Entries, now: int): Entries {
    map ip | ip in entries && !Expired(entries[ip], now) :: entries[ip]
  }

  class FailedAuthLimiter {
    const limit: int
    const window: int
    var entries: Entries

    constructor (limit: int, window: int)
      ensures this.limit == if limit <= 0 then DEFAULT_LIMIT else limit
      ensures this.window == if window <= 0 then DEFAULT_WINDOW else window
      ensures this.limit > 0 && this.window > 0 && entries == map[]
    {
      this.limit := if limit <= 0 then DEFAULT_LIMIT else limit;
      this.window := if window <= 0 then DEFAULT_WINDOW else window;
      entries := map[];
    }

    method Allow(ip: string, now: int) returns (allowed: bool)
      modifies this
      ensures allowed == Admits(old(entries), limit, ip, now)
      ensures entries == AfterAllow(old(entries), ip, now)
      // said of the entries alone
      ensures !allowed <==>
        ip != "" && ip in old(entries) && now < old(entries)[ip].expiresAt && limit <= old(entries)[ip].count
      ensures entries == if ip != "" && ip in old(entries) && old(entries)[ip].expiresAt <= now
        then old(entries) - {ip} else old(entries)
    {
      if ip == "" {
        return true;
      }
      if ip !in entries {
        return true;
      }
      var entry := entries[ip];
      if now >= entry.expiresAt {
        entries := entries - {ip};
        return true;
      }
      return entry.count < limit;
    }

    method RecordFailure(ip: string, now: int)
      modifies this
      ensures entries == AfterFailure(old(entries), window, ip, now)
      // said of the entries alone
      ensures ip == "" ==> entries == old(entries)
      ensures ip != "" && ip in old(entries) && now < old(entries)[ip].expiresAt ==>
        entries == old(entries)[ip := old(entries)[ip].(count := old(entries)[ip].count + 1)]
      ensures ip != "" && (ip !in old(entries) || old(entries)[ip].expiresAt <= now) ==>
        entries == old(entries)[ip := Entry(1, now + window)]
    {
      if ip == "" {
        return;
      }
      var entry := if ip in entries then entries[ip] else Entry(0, now);
      if ip !in entries || now >= entry.expiresAt {
        entry := Entry(0, now + window);
      }
      entry := entry.(count := entry.count + 1);
      entries := entries[ip := entry];
    }

    method Cleanup(now: int)
      modifies this
      ensures entries == AfterCleanup(old(entries), now)
      ensures forall ip :: ip in entries <==> ip in old(entries) && now < old(entries)[ip].expiresAt
      ensures forall ip :: ip in entries ==> entries[ip] == old(entries)[ip]
    {
      var pending := entries.Keys;
      while pending != {}
        invariant pending <= old(entries).Keys
        invariant entries.Keys <= old(entries).Keys
        invariant forall ip :: ip in old(entries) ==>
          (ip in entries <==> ip in pending || !Expired(old(entries)[ip], now))
        invariant forall ip :: ip in entries ==> entries[ip] == old(entries)[ip]
        decreases pending
      {
        var ip :| ip in pending;
        if now >= entries[ip].expiresAt {
          entries := entries - {ip};
        }
        pending := pending - {ip};
      }
    }

    /** The middleware around one protected request: check, serve, then record a
        failure when the handler answered 401. */
    method ServeProtected(ip: string, checkedAt: int, unauthorized: bool, finishedAt: int)
      returns (served: bool)
      modifies this
      ensures served == Admits(old(entries), limit, ip, checkedAt)
      ensures entries ==
        var checked := AfterAllow(old(entries), ip, checkedAt);
        if served && unauthorized then AfterFailure(checked, window, ip, finishedAt) else checked
    {
      served := Allow(ip, checkedAt);
      if !served {
        return;
      }
      if unauthorized {
        RecordFailure(ip, finishedAt);
      }
    }

    /** One event of a run of requests, as the limiter handles it. */
    method Handle(cfg: Config, ghost s: State, e: Event) returns (admitted: bool)
      requires cfg.limit == limit && cfg.window == window && s.entries == entries
      modifies this
      ensures entries == Next(cfg, s, e).entries
      ensures e.Check? ==> Next(cfg, s, e).inFlight == s.inFlight + if admitted then multiset{e.ip} else multiset{}
    {
      match e
      case Check(ip, now) =>
        admitted := Allow(ip, now);
      case Finish(ip, now, unauthorized) =>
        admitted := false;
        if unauthorized {
          RecordFailure(ip, now);
        }
      case Cleanup(now) =>
        admitted := false;
        Cleanup(now);
    }
  }

  // ------------------------------------------- the log that is never pruned

  /** Index of the failure that opened the window failure `i` belongs to. */
  function StartOf(times: seq<int>, window: int, i: nat): (s: nat)
    requires i < |times|
    ensures s <= i
  {
    if i == 0 then 0
    else
      var s := StartOf(times, window, i - 1);
      if times[i] >= times[s] + window then i else s
  }

  /** The window the last failure belongs to: how many failures, and its end. */
  function LastWindow(times: seq<int>, window: int): Entry
    requires times != []
  {
    var s := StartOf(times, window, |times| - 1);
    Entry(|times| - s, times[s] + window)
  }

  predicate Blocked(times: seq<int>, limit: int, window: int, now: int) {
    times != [] &&
    var start := StartOf(times, window, |times| - 1);
    now < times[start] + window && |times| - start >= limit
  }

  predicate NonDecreasing(times: seq<int>) {
    forall i, j :: 0 <= i < j < |times| ==> times[i] <= times[j]
  }

  lemma {:induction false} StartOfPrefix(times: seq<int>, t: int, window: int, i: nat)
    requires i < |times|
    ensures StartOf(times + [t], window, i) == StartOf(times, window, i)
  {
    if i > 0 {
      StartOfPrefix(times, t, window, i - 1);
    }
  }

  lemma {:induction false} StartOfProperties(times: seq<int>, window: int, i: nat)
    requires i < |times| && window > 0
    ensures var s := StartOf(times, window, i);
      && StartOf(times, window, s) == s
      && (forall j :: s < j <= i ==> times[j] < times[s] + window)
      && (s > 0 ==> times[s] >= times[StartOf(times, window, s - 1)] + window)
  {
    if i > 0 {
      StartOfProperties(times, window, i - 1);
    }
  }

  function CountWithin(times: seq<int>, from: int, to: int): nat {
    if times == [] then 0
    else
      var last := |times| - 1;
      CountWithin(times[..last], from, to) + if from <= times[last] < to then 1 else 0
  }

  lemma {:induction false} CountWithinRange(times: seq<int>, from: int, to: int) returns (lo: nat, hi: nat)
    requires NonDecreasing(times)
    ensures lo <= hi <= |times| && hi - lo == CountWithin(times, from, to)
    ensures forall i :: lo <= i < hi ==> from <= times[i] < to
    ensures forall i :: 0 <= i < lo ==> times[i] < from
    ensures forall i :: hi <= i < |times| ==> times[i] >= to
  {
    if times == [] {
      return 0, 0;
    }
    var last := |times| - 1;
    lo, hi := CountWithinRange(times[..last], from, to);
    assert lo < hi ==> times[lo] >= from;
    assert hi < last ==> times[hi] >= to;
    if times[last] < from {
      lo, hi := |times|, |times|;
    } else if times[last] < to {
      hi := hi + 1;
    }
  }

  /** If no window of the log ever holds more than `most` failures, an interval as
      long as the window, wherever it starts, holds at most 2*most - 1. */
  lemma IntervalBound(times: seq<int>, window: int, most: int, from: int)
    requires NonDecreasing(times) && window > 0 && most > 0
    requires forall i :: 0 <= i < |times| ==> i + 1 - StartOf(times, window, i) <= most
    ensures CountWithin(times, from, from + window) <= 2 * most - 1
  {
    var lo, hi := CountWithinRange(times, from, from + window);
    if hi - lo >= 2 * most {
      var second := StartOf(times, window, hi - 1);
      StartOfProperties(times, window, hi - 1);
      assert false;
    }
  }

  // ------------------------------------------------------- runs of requests

  datatype Config = Config(limit: int, window: int, concurrency: int) {
    predicate Valid() { limit > 0 && window > 0 && concurrency > 0 }
    function Most(): int { limit - 1 + concurrency }
  }

  datatype Failure = Failure(ip: string, at: int)

  datatype State = State(entries: Entries, inFlight: multiset<string>, log: seq<Failure>, clock: int)

  /** What happens to the limiter, in the order in which its lock is taken; `now` is the
      instant it is told, which was read before that. */
  datatype Event =
    | Check(ip: string, now: int)
    | Finish(ip: string, now: int, unauthorized: bool)
    | Cleanup(now: int)

  function TimesOf(log: seq<Failure>, ip: string): seq<int> {
    if log == [] then []
    else
      var last := |log| - 1;
      TimesOf(log[..last], ip) + if log[last].ip == ip then [log[last].at] else []
  }

  lemma TimesOfAppend(log: seq<Failure>, f: Failure, ip: string)
    ensures TimesOf(log + [f], ip) == TimesOf(log, ip) + if f.ip == ip then [f.at] else []
  {
    assert (log + [f])[..|log|] == log;
  }

  const INITIAL := State(map[], multiset{}, [], 0)

  function Next(cfg: Config, s: State, e: Event): State {
    match e
    case Check(ip, now) =>
      var entries := AfterAllow(s.entries, ip, now);
      if Admits(s.entries, cfg.limit, ip, now)
      then s.(entries := entries, inFlight := s.inFlight + multiset{ip}, clock := now)
      else s.(entries := entries, clock := now)
    case Finish(ip, now, unauthorized) =>
      var done := s.(inFlight := s.inFlight - multiset{ip}, clock := now);
      if !unauthorized then done
      else done.(entries := AfterFailure(s.entries, cfg.window, ip, now),
                 log := if ip == "" then s.log else s.log + [Failure(ip, now)])
    case Cleanup(now) => s.(entries := AfterCleanup(s.entries, now), clock := now)
  }

  /** Only an admitted request can finish, and at most `concurrency` requests of
      one address are in flight. Nothing is said about the clock. */
  predicate Possible(cfg: Config, s: State, e: Event) {
    match e
    case Check(ip, now) => s.inFlight[ip] < cfg.concurrency
    case Finish(ip, _, _) => ip in s.inFlight
    case Cleanup(_) => true
  }

  predicate PossibleRun(cfg: Config, s: State, events: seq<Event>)
    decreases |events|
  {
    events == [] ||
    (Possible(cfg, s, events[0]) && PossibleRun(cfg, Next(cfg, s, events[0]), events[1..]))
  }

  predicate OrderedRun(cfg: Config, s: State, events: seq<Event>)
    decreases |events|
  {
    events == [] ||
    (s.clock <= events[0].now && OrderedRun(cfg, Next(cfg, s, events[0]), events[1..]))
  }

  function Run(cfg: Config, s: State, events: seq<Event>): State
    decreases |events|
  {
    if events == [] then s else Run(cfg, Next(cfg, s, events[0]), events[1..])
  }

  function Count(entries: Entries, ip: string): int {
    if ip in entries then entries[ip].count else 0
  }

  // Count plus requests in flight, whatever the clock does.

  ghost predicate Bounded(cfg: Config, s: State) {
    "" !in s.entries &&
    forall ip :: s.inFlight[ip] <= cfg.concurrency && Count(s.entries, ip) + s.inFlight[ip] <= cfg.Most()
  }

  lemma BoundedStep(cfg: Config, s: State, e: Event)
    requires cfg.Valid() && Bounded(cfg, s) && Possible(cfg, s, e)
    ensures Bounded(cfg, Next(cfg, s, e))
  {
    var s' := Next(cfg, s, e);
    forall ip ensures s'.inFlight[ip] <= cfg.concurrency && Count(s'.entries, ip) + s'.inFlight[ip] <= cfg.Most() {
      assert s.inFlight[ip] <= cfg.concurrency;
    }
  }

  lemma {:induction false} BoundedRun(cfg: Config, s: State, events: seq<Event>)
    requires cfg.Valid() && Bounded(cfg, s) && PossibleRun(cfg, s, events)
    ensures Bounded(cfg, Run(cfg, s, events))
    decreases |events|
  {
    if events != [] {
      BoundedStep(cfg, s, events[0]);
      BoundedRun(cfg, Next(cfg, s, events[0]), events[1..]);
    }
  }

  /** In every reachable state, failures counted plus requests in flight stay within
      limit - 1 + concurrency, across window resets and with any clock. */
  lemma CountPlusInFlight(cfg: Config, events: seq<Event>, ip: string)
    requires cfg.Valid() && PossibleRun(cfg, INITIAL, events)
    ensures var s := Run(cfg, INITIAL, events);
      Count(s.entries, ip) + s.inFlight[ip] <= cfg.limit - 1 + cfg.concurrency
  {
    BoundedRun(cfg, INITIAL, events);
  }

  // The pruned map against the log, when the instants never go back in the order in
  // which the limiter's lock is taken.

  ghost predicate Tracks(entries: Entries, window: int, times: seq<int>, ip: string, clock: int) {
    && NonDecreasing(times)
    && (forall i :: 0 <= i < |times| ==> times[i] <= clock)
    && (ip == "" ==> times == [] && ip !in entries)
    && (ip in entries ==> times != [] && entries[ip] == LastWindow(times, window))
    && (ip !in entries && times != [] ==> Expired(LastWindow(times, window), clock))
  }

  ghost predicate Refines(cfg: Config, s: State) {
    forall ip :: Tracks(s.entries, cfg.window, TimesOf(s.log, ip), ip, s.clock)
  }

  ghost predicate WindowsWithin(cfg: Config, times: seq<int>) {
    forall i :: 0 <= i < |times| ==> i + 1 - StartOf(times, cfg.window, i) <= cfg.Most()
  }

  lemma TracksFailure(entries: Entries, window: int, times: seq<int>, ip: string, clock: int, now: int)
    requires Tracks(entries, window, times, ip, clock) && clock <= now && ip != "" && window > 0
    ensures Tracks(AfterFailure(entries, window, ip, now), window, times + [now], ip, now)
  {
    if times != [] {
      StartOfPrefix(times, now, window, |times| - 1);
    }
  }

  lemma TracksPruned(
    entries: Entries, entries': Entries, window: int, times: seq<int>, ip: string, clock: int, now: int)
    requires Tracks(entries, window, times, ip, clock) && clock <= now
    requires ip in entries' ==> ip in entries && entries'[ip] == entries[ip]
    requires ip in entries && ip !in entries' ==> Expired(entries[ip], now)
    ensures Tracks(entries', window, times, ip, now)
  {
  }

  lemma TracksStep(cfg: Config, s: State, e: Event, ip: string)
    requires cfg.Valid() && Tracks(s.entries, cfg.window, TimesOf(s.log, ip), ip, s.clock) && s.clock <= e.now
    ensures var s' := Next(cfg, s, e); Tracks(s'.entries, cfg.window, TimesOf(s'.log, ip), ip, s'.clock)
  {
    var times := TimesOf(s.log, ip);
    if e.Finish? && e.unauthorized && e.ip != "" {
      TimesOfAppend(s.log, Failure(e.ip, e.now), ip);
      if ip == e.ip {
        TracksFailure(s.entries, cfg.window, times, ip, s.clock, e.now);
      } else {
        assert times + [] == times;
        TracksPruned(s.entries, Next(cfg, s, e).entries, cfg.window, times, ip, s.clock, e.now);
      }
    } else {
      TracksPruned(s.entries, Next(cfg, s, e).entries, cfg.window, times, ip, s.clock, e.now);
    }
  }

  lemma RefinesStep(cfg: Config, s: State, e: Event)
    requires cfg.Valid() && Refines(cfg, s) && s.clock <= e.now
    ensures Refines(cfg, Next(cfg, s, e))
  {
    forall ip ensures var s' := Next(cfg, s, e); Tracks(s'.entries, cfg.window, TimesOf(s'.log, ip), ip, s'.clock) {
      TracksStep(cfg, s, e, ip);
    }
  }

  lemma WindowsAppend(cfg: Config, times: seq<int>, now: int)
    requires WindowsWithin(cfg, times) && LastWindow(times + [now], cfg.window).count <= cfg.Most()
    ensures WindowsWithin(cfg, times + [now])
  {
    forall i | 0 <= i < |times| ensures StartOf(times + [now], cfg.window, i) == StartOf(times, cfg.window, i) {
      StartOfPrefix(times, now, cfg.window, i);
    }
  }

  lemma WindowsStep(cfg: Config, s: State, e: Event, ip: string)
    requires cfg.Valid() && Refines(cfg, s) && Bounded(cfg, s) && Possible(cfg, s, e) && s.clock <= e.now
    requires WindowsWithin(cfg, TimesOf(s.log, ip))
    ensures WindowsWithin(cfg, TimesOf(Next(cfg, s, e).log, ip))
  {
    if e.Finish? && e.unauthorized && e.ip != "" {
      TimesOfAppend(s.log, Failure(e.ip, e.now), ip);
      var times := TimesOf(s.log, ip);
      if ip == e.ip {
        var s' := Next(cfg, s, e);
        BoundedStep(cfg, s, e);
        TracksFailure(s.entries, cfg.window, times, ip, s.clock, e.now);
        assert Count(s'.entries, ip) + s'.inFlight[ip] <= cfg.Most();
        WindowsAppend(cfg, times, e.now);
      } else {
        assert TimesOf(Next(cfg, s, e).log, ip) == times;
      }
    }
  }

  lemma {:induction false} RefinesRun(cfg: Config, s: State, events: seq<Event>)
    requires cfg.Valid() && Refines(cfg, s) && OrderedRun(cfg, s, events)
    ensures Refines(cfg, Run(cfg, s, events))
    decreases |events|
  {
    if events != [] {
      RefinesStep(cfg, s, events[0]);
      RefinesRun(cfg, Next(cfg, s, events[0]), events[1..]);
    }
  }

  // What the instants have to keep to, and no more: a failure or a check that finds its
  // address's window already deleted does not come before that window's end.

  predicate DeletedIsOver(cfg: Config, s: State, ip: string, now: int) {
    ip !in s.entries && TimesOf(s.log, ip) != [] ==> Expired(LastWindow(TimesOf(s.log, ip), cfg.window), now)
  }

  predicate Fits(cfg: Config, s: State, e: Event) {
    e.Finish? && e.unauthorized ==> DeletedIsOver(cfg, s, e.ip, e.now)
  }

  predicate FitsRun(cfg: Config, s: State, events: seq<Event>)
    decreases |events|
  {
    events == [] || (Fits(cfg, s, events[0]) && FitsRun(cfg, Next(cfg, s, events[0]), events[1..]))
  }

  /** An entry that is kept is the last window of the log, whatever the instants are. */
  ghost predicate Mirrors(cfg: Config, s: State) {
    forall ip :: MirrorsFor(s.entries, cfg.window, TimesOf(s.log, ip), ip)
  }

  ghost predicate MirrorsFor(entries: Entries, window: int, times: seq<int>, ip: string) {
    && (ip == "" ==> times == [] && ip !in entries)
    && (ip in entries ==> times != [] && entries[ip] == LastWindow(times, window))
  }

  lemma MirrorsFailure(entries: Entries, window: int, times: seq<int>, ip: string, now: int)
    requires MirrorsFor(entries, window, times, ip) && ip != ""
    requires ip !in entries && times != [] ==> Expired(LastWindow(times, window), now)
    ensures MirrorsFor(AfterFailure(entries, window, ip, now), window, times + [now], ip)
  {
    if times != [] {
      StartOfPrefix(times, now, window, |times| - 1);
    }
  }

  lemma MirrorsStep(cfg: Config, s: State, e: Event)
    requires Mirrors(cfg, s) && Fits(cfg, s, e)
    ensures Mirrors(cfg, Next(cfg, s, e))
  {
    var s' := Next(cfg, s, e);
    forall ip ensures MirrorsFor(s'.entries, cfg.window, TimesOf(s'.log, ip), ip) {
      assert MirrorsFor(s.entries, cfg.window, TimesOf(s.log, ip), ip);
      if e.Finish? && e.unauthorized && e.ip != "" {
        TimesOfAppend(s.log, Failure(e.ip, e.now), ip);
        if ip == e.ip {
          MirrorsFailure(s.entries, cfg.window, TimesOf(s.log, ip), ip, e.now);
        } else {
          assert TimesOf(s.log, ip) + [] == TimesOf(s.log, ip);
        }
      }
    }
  }

  lemma {:induction false} MirrorsRun(cfg: Config, s: State, events: seq<Event>)
    requires Mirrors(cfg, s) && FitsRun(cfg, s, events)
    ensures Mirrors(cfg, Run(cfg, s, events))
    decreases |events|
  {
    if events != [] {
      MirrorsStep(cfg, s, events[0]);
      MirrorsRun(cfg, Next(cfg, s, events[0]), events[1..]);
    }
  }

  /** Lazy deletion in Allow and Cleanup at arbitrary times never changes an answer: it is
      the one read off the log that is never pruned. It differs only for a check before
      the end of a window already deleted, and then exactly if that window was full. */
  lemma LimiterRefinesLog(cfg: Config, events: seq<Event>, ip: string, now: int)
    requires FitsRun(cfg, INITIAL, events)
    ensures var s := Run(cfg, INITIAL, events);
      var times := TimesOf(s.log, ip);
      (Admits(s.entries, cfg.limit, ip, now) <==> !Blocked(times, cfg.limit, cfg.window, now)) <==>
        DeletedIsOver(cfg, s, ip, now) || LastWindow(times, cfg.window).count < cfg.limit
  {
    MirrorsRun(cfg, INITIAL, events);
    var s := Run(cfg, INITIAL, events);
    assert MirrorsFor(s.entries, cfg.window, TimesOf(s.log, ip), ip);
  }

  lemma {:induction false} OrderedFits(cfg: Config, s: State, events: seq<Event>)
    requires cfg.Valid() && Refines(cfg, s) && OrderedRun(cfg, s, events)
    ensures FitsRun(cfg, s, events)
    decreases |events|
  {
    if events != [] {
      var e := events[0];
      if e.Finish? {
        assert Tracks(s.entries, cfg.window, TimesOf(s.log, e.ip), e.ip, s.clock);
      }
      RefinesStep(cfg, s, e);
      OrderedFits(cfg, Next(cfg, s, e), events[1..]);
    }
  }

  /** Instants that never go back as the lock is taken keep to it, so then every answer is
      that of the log. */
  lemma OrderedLimiterRefinesLog(cfg: Config, events: seq<Event>, ip: string, now: int)
    requires cfg.Valid() && OrderedRun(cfg, INITIAL, events)
    requires Run(cfg, INITIAL, events).clock <= now
    ensures FitsRun(cfg, INITIAL, events)
    ensures var s := Run(cfg, INITIAL, events);
      Admits(s.entries, cfg.limit, ip, now) <==> !Blocked(TimesOf(s.log, ip), cfg.limit, cfg.window, now)
  {
    RefinesRun(cfg, INITIAL, events);
    OrderedFits(cfg, INITIAL, events);
    LimiterRefinesLog(cfg, events, ip, now);
    var s := Run(cfg, INITIAL, events);
    assert Tracks(s.entries, cfg.window, TimesOf(s.log, ip), ip, s.clock);
  }

  /** Without that the answers differ: a failure at 0 in a window of 10, a cleanup at 10,
      and then a check at 5. An instant is read before the lock is taken, so this can come
      of two requests at once as well as of a clock that goes back. */
  lemma BackwardClockBreaksRefinement()
    ensures var cfg := Config(1, 10, 1);
      var events := [Check("a", 0), Finish("a", 0, true), Cleanup(10)];
      var s := Run(cfg, INITIAL, events);
      PossibleRun(cfg, INITIAL, events) &&
      Admits(s.entries, 1, "a", 5) && Blocked(TimesOf(s.log, "a"), 1, 10, 5)
  {
    var cfg := Config(1, 10, 1);
    var s1 := Next(cfg, INITIAL, Check("a", 0));
    var s2 := Next(cfg, s1, Finish("a", 0, true));
    var s3 := Next(cfg, s2, Cleanup(10));
    assert s2.entries == map["a" := Entry(1, 10)];
    assert s3.entries == map[] && s3.log == [Failure("a", 0)];
    var e0, e1, e2 := Check("a", 0), Finish("a", 0, true), Cleanup(10);
    assert [e0, e1, e2][1..] == [e1, e2] && [e1, e2][1..] == [e2];
    assert Run(cfg, s2, [e2]) == s3 && PossibleRun(cfg, s2, [e2]);
    assert Run(cfg, s1, [e1, e2]) == s3 && PossibleRun(cfg, s1, [e1, e2]);
    TimesOfAppend([], Failure("a", 0), "a");
    assert [] + [Failure("a", 0)] == [Failure("a", 0)];
    assert TimesOf(s3.log, "a") == [0];
  }

  lemma {:induction false} WindowsRun(cfg: Config, s: State, events: seq<Event>, ip: string)
    requires cfg.Valid() && Refines(cfg, s) && Bounded(cfg, s) && WindowsWithin(cfg, TimesOf(s.log, ip))
    requires PossibleRun(cfg, s, events) && OrderedRun(cfg, s, events)
    ensures var s' := Run(cfg, s, events);
      Refines(cfg, s') && WindowsWithin(cfg, TimesOf(s'.log, ip))
    decreases |events|
  {
    if events != [] {
      RefinesStep(cfg, s, events[0]);
      BoundedStep(cfg, s, events[0]);
      WindowsStep(cfg, s, events[0], ip);
      WindowsRun(cfg, Next(cfg, s, events[0]), events[1..], ip);
    }
  }

  /** Failures recorded for one address in any half-open interval of length window. */
  lemma FailuresPerInterval(cfg: Config, events: seq<Event>, ip: string, from: int)
    requires cfg.Valid() && PossibleRun(cfg, INITIAL, events) && OrderedRun(cfg, INITIAL, events)
    ensures CountWithin(TimesOf(Run(cfg, INITIAL, events).log, ip), from, from + cfg.window)
            <= 2 * (cfg.limit - 1 + cfg.concurrency) - 1
  {
    WindowsRun(cfg, INITIAL, events, ip);
    var s := Run(cfg, INITIAL, events);
    assert Tracks(s.entries, cfg.window, TimesOf(s.log, ip), ip, s.clock);
    IntervalBound(TimesOf(s.log, ip), cfg.window, cfg.Most(), from);
  }

  // The bound is the largest number that occurs, whatever the limit, the window and the
  // concurrency: one failure opens a window, the window is filled just before it ends,
  // and the next one is filled the moment it opens.

  /** What matters of a state for address "a", at `clock` or before. */
  predicate Has(s: State, count: nat, end: int, flying: nat, clock: int, times: seq<int>) {
    && s.inFlight["a"] == flying && s.clock <= clock && TimesOf(s.log, "a") == times
    && (count == 0 ==> "a" !in s.entries || Expired(s.entries["a"], clock))
    && (count > 0 ==> "a" in s.entries && s.entries["a"] == Entry(count, end) && clock < end)
  }

  /** The events can follow s in this order and lead to s'. */
  predicate Leads(cfg: Config, s: State, events: seq<Event>, s': State) {
    PossibleRun(cfg, s, events) && OrderedRun(cfg, s, events) && Run(cfg, s, events) == s'
  }

  lemma LeadsOne(cfg: Config, s: State, e: Event)
    requires Possible(cfg, s, e) && s.clock <= e.now
    ensures Leads(cfg, s, [e], Next(cfg, s, e))
  {
    assert [e][1..] == [];
  }

  lemma {:induction false} LeadsConcat(cfg: Config, s: State, a: seq<Event>, s': State, b: seq<Event>, s'': State)
    requires Leads(cfg, s, a, s') && Leads(cfg, s', b, s'')
    ensures Leads(cfg, s, a + b, s'')
    decreases |a|
  {
    if a == [] {
      assert a + b == b;
    } else {
      LeadsConcat(cfg, Next(cfg, s, a[0]), a[1..], s', b, s'');
      assert (a + b)[1..] == a[1..] + b;
    }
  }

  lemma {:induction false} Checks(
    cfg: Config, s: State, n: nat, t: int, count: nat, end: int, flying: nat, clock: int, times: seq<int>)
    returns (events: seq<Event>, s': State)
    requires Has(s, count, end, flying, clock, times) && clock <= t && (count > 0 ==> t < end)
    requires cfg.Valid() && count < cfg.limit && flying + n <= cfg.concurrency
    ensures Leads(cfg, s, events, s') && Has(s', count, end, flying + n, t, times)
    decreases n
  {
    if n == 0 {
      events, s' := [], s;
    } else {
      var e := Check("a", t);
      LeadsOne(cfg, s, e);
      var rest;
      rest, s' := Checks(cfg, Next(cfg, s, e), n - 1, t, count, end, flying + 1, t, times);
      LeadsConcat(cfg, s, [e], Next(cfg, s, e), rest, s');
      events := [e] + rest;
    }
  }

  function Repeat(t: int, n: nat): seq<int> {
    if n == 0 then [] else Repeat(t, n - 1) + [t]
  }

  lemma {:induction false} Finishes(
    cfg: Config, s: State, n: nat, t: int, count: nat, end: int, flying: nat, clock: int, times: seq<int>)
    returns (events: seq<Event>, s': State)
    requires Has(s, count, end, flying, clock, times) && clock <= t
    requires n <= flying && 0 < count && t < end
    ensures Leads(cfg, s, events, s') && Has(s', count + n, end, flying - n, t, times + Repeat(t, n))
    decreases n
  {
    if n == 0 {
      events, s' := [], s;
      assert times + [] == times;
    } else {
      var before;
      before, s' := Finishes(cfg, s, n - 1, t, count, end, flying, clock, times);
      var e := Finish("a", t, true);
      LeadsOne(cfg, s', e);
      TimesOfAppend(s'.log, Failure("a", t), "a");
      assert times + Repeat(t, n) == times + Repeat(t, n - 1) + [t];
      LeadsConcat(cfg, s, before, s', [e], Next(cfg, s', e));
      events, s' := before + [e], Next(cfg, s', e);
    }
  }

  lemma OpensWindow(cfg: Config, s: State, t: int, end: int, flying: nat, clock: int, times: seq<int>)
    requires cfg.Valid() && Has(s, 0, end, flying, clock, times) && clock <= t && flying > 0
    ensures var e := Finish("a", t, true);
      Leads(cfg, s, [e], Next(cfg, s, e)) && Has(Next(cfg, s, e), 1, t + cfg.window, flying - 1, t, times + [t])
  {
    LeadsOne(cfg, s, Finish("a", t, true));
    TimesOfAppend(s.log, Failure("a", t), "a");
  }

  /** n requests one after the other, each checked, failing and recorded at t. */
  lemma {:induction false} Serial(
    cfg: Config, s: State, n: nat, t: int, count: nat, end: int, clock: int, times: seq<int>)
    returns (events: seq<Event>, s': State)
    requires cfg.Valid() && Has(s, count, end, 0, clock, times) && clock <= t
    requires 0 < count && t < end && count + n <= cfg.limit
    ensures Leads(cfg, s, events, s') && Has(s', count + n, end, 0, t, times + Repeat(t, n))
    decreases n
  {
    if n == 0 {
      events, s' := [], s;
      assert times + [] == times;
    } else {
      var before, check, finish, s1, s2;
      before, s1 := Serial(cfg, s, n - 1, t, count, end, clock, times);
      check, s2 := Checks(cfg, s1, 1, t, count + n - 1, end, 0, t, times + Repeat(t, n - 1));
      finish, s' := Finishes(cfg, s2, 1, t, count + n - 1, end, 1, t, times + Repeat(t, n - 1));
      assert Repeat(t, 1) == Repeat(t, 0) + [t] == [t];
      assert times + Repeat(t, n - 1) + [t] == times + Repeat(t, n);
      LeadsConcat(cfg, s, before, s1, check, s2);
      LeadsConcat(cfg, s, before + check, s2, finish, s');
      events := before + check + finish;
    }
  }

  /** Opens a window at t0 and fills it at t1. */
  lemma FillWindow(cfg: Config, s: State, t0: int, t1: int, clock: int, times: seq<int>)
    returns (events: seq<Event>, s': State)
    requires cfg.Valid() && Has(s, 0, 0, 0, clock, times) && clock <= t0 <= t1 < t0 + cfg.window
    ensures Leads(cfg, s, events, s')
    ensures Has(s', cfg.Most(), t0 + cfg.window, 0, t1, times + [t0] + Repeat(t1, cfg.Most() - 1))
  {
    var last, s1;
    if cfg.limit == 1 {
      events, s1 := OpenWindow(cfg, s, cfg.concurrency, t0, clock, times);
      last, s' := Finishes(cfg, s1, cfg.concurrency - 1, t1, 1, t0 + cfg.window, cfg.concurrency - 1, t0, times + [t0]);
    } else {
      events, s1 := OpenWindow(cfg, s, 1, t0, clock, times);
      last, s' := FillOpened(cfg, s1, t1, t0 + cfg.window, t0, times + [t0]);
    }
    LeadsConcat(cfg, s, events, s1, last, s');
    events := events + last;
  }

  /** n requests checked at t, and the first of them failing there. */
  lemma OpenWindow(cfg: Config, s: State, n: nat, t: int, clock: int, times: seq<int>)
    returns (events: seq<Event>, s': State)
    requires cfg.Valid() && Has(s, 0, 0, 0, clock, times) && clock <= t && 0 < n <= cfg.concurrency
    ensures Leads(cfg, s, events, s') && Has(s', 1, t + cfg.window, n - 1, t, times + [t])
  {
    var s1;
    var first := Finish("a", t, true);
    events, s1 := Checks(cfg, s, n, t, 0, 0, 0, clock, times);
    OpensWindow(cfg, s1, t, 0, n, t, times);
    s' := Next(cfg, s1, first);
    LeadsConcat(cfg, s, events, s1, [first], s');
    events := events + [first];
  }

  /** The rest of a window that holds one failure. */
  lemma FillOpened(cfg: Config, s: State, t: int, end: int, clock: int, times: seq<int>)
    returns (events: seq<Event>, s': State)
    requires cfg.Valid() && cfg.limit > 1 && Has(s, 1, end, 0, clock, times) && clock <= t < end
    ensures Leads(cfg, s, events, s') && Has(s', cfg.Most(), end, 0, t, times + Repeat(t, cfg.Most() - 1))
  {
    var more, last, s1, s2;
    events, s1 := Serial(cfg, s, cfg.limit - 2, t, 1, end, clock, times);
    var sofar := times + Repeat(t, cfg.limit - 2);
    more, s2 := Checks(cfg, s1, cfg.concurrency, t, cfg.limit - 1, end, 0, t, sofar);
    LeadsConcat(cfg, s, events, s1, more, s2);
    last, s' := Finishes(cfg, s2, cfg.concurrency, t, cfg.limit - 1, end, cfg.concurrency, t, sofar);
    LeadsConcat(cfg, s, events + more, s2, last, s');
    RepeatConcat(times, t, cfg.limit - 2, cfg.concurrency);
    events := events + more + last;
  }

  lemma {:induction false} RepeatConcat(before: seq<int>, t: int, m: nat, n: nat)
    ensures before + Repeat(t, m) + Repeat(t, n) == before + Repeat(t, m + n)
    decreases n
  {
    if n > 0 {
      RepeatConcat(before, t, m, n - 1);
      assert before + Repeat(t, m) + Repeat(t, n) == before + Repeat(t, m) + Repeat(t, n - 1) + [t];
      assert before + Repeat(t, m + n) == before + Repeat(t, m + n - 1) + [t];
    } else {
      assert before + Repeat(t, m) + [] == before + Repeat(t, m);
    }
  }

  lemma {:induction false} CountRepeat(times: seq<int>, t: int, n: nat, from: int, to: int)
    requires from <= t < to
    ensures CountWithin(times + Repeat(t, n), from, to) == CountWithin(times, from, to) + n
    decreases n
  {
    if n == 0 {
      assert times + [] == times;
    } else {
      CountRepeat(times, t, n - 1, from, to);
      var longer := times + Repeat(t, n);
      assert longer[..|longer| - 1] == times + Repeat(t, n - 1);
    }
  }

  /** For every limit, every concurrency and every window longer than one tick of the
      clock, some run reaches the bound. */
  lemma IntervalBoundIsReached(cfg: Config) returns (events: seq<Event>, from: int)
    requires cfg.Valid() && cfg.window > 1
    ensures PossibleRun(cfg, INITIAL, events) && OrderedRun(cfg, INITIAL, events)
    ensures CountWithin(TimesOf(Run(cfg, INITIAL, events).log, "a"), from, from + cfg.window)
            == 2 * (cfg.limit - 1 + cfg.concurrency) - 1
  {
    var w, most := cfg.window, cfg.Most();
    from := w - 1;
    var more, s1, s2;
    events, s1 := FillWindow(cfg, INITIAL, 0, w - 1, 0, []);
    var first := [] + [0] + Repeat(w - 1, most - 1);
    more, s2 := FillWindow(cfg, s1, w, w, w, first);
    LeadsConcat(cfg, INITIAL, events, s1, more, s2);
    events := events + more;
    CountRepeat([0], w - 1, most - 1, from, from + w);
    assert first == [0] + Repeat(w - 1, most - 1) && [0][..0] == [];
    CountRepeat(first + [w], w, most - 1, from, from + w);
    assert (first + [w])[..|first|] == first;
  }

  // Re-admission.

  lemma {:induction false} WindowNeverExtended(cfg: Config, s: State, events: seq<Event>, ip: string)
    requires ip in s.entries && ip != ""
    requires forall e :: e in events ==> e.now < s.entries[ip].expiresAt
    ensures var s' := Run(cfg, s, events);
      && ip in s'.entries
      && s'.entries[ip].expiresAt == s.entries[ip].expiresAt
      && s'.entries[ip].count >= s.entries[ip].count
    decreases |events|
  {
    if events != [] {
      assert events[0] in events;
      WindowNeverExtended(cfg, Next(cfg, s, events[0]), events[1..], ip);
    }
  }

  /** A blocked address is admitted again exactly `window` after the failure that
      opened its window: no retry, no cleanup and no failure still in flight moves
      that instant either way. */
  lemma BlockedUntilWindowEnds(cfg: Config, before: seq<Event>, during: seq<Event>, ip: string)
    requires cfg.Valid() && OrderedRun(cfg, INITIAL, before)
    requires var s := Run(cfg, INITIAL, before);
      var times := TimesOf(s.log, ip);
      && Blocked(times, cfg.limit, cfg.window, s.clock)
      && OrderedRun(cfg, s, during)
      && forall e :: e in during ==> e.now < times[StartOf(times, cfg.window, |times| - 1)] + cfg.window
    ensures var s := Run(cfg, INITIAL, before);
      var times := TimesOf(s.log, ip);
      var readmitted := times[StartOf(times, cfg.window, |times| - 1)] + cfg.window;
      var s' := Run(cfg, s, during);
      forall now :: Admits(s'.entries, cfg.limit, ip, now) <==> now >= readmitted
  {
    RefinesRun(cfg, INITIAL, before);
    var s := Run(cfg, INITIAL, before);
    assert Tracks(s.entries, cfg.window, TimesOf(s.log, ip), ip, s.clock);
    WindowNeverExtended(cfg, s, during, ip);
  }
}
