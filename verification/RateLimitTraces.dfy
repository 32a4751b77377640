/** What every sequence of calls to the limiter guarantees. */
module RateLimitTraces {
  import opened RateLimit

  datatype Call = Call(key: string, now: Instant)

  /** The table and the decisions after a sequence of calls, in lock order. */
  function Run(cfg: Config, entries: Entries, calls: seq<Call>): (r: (Entries, seq<Decision>))
    ensures |r.1| == |calls|
    decreases |calls|
  {
    if calls == [] then (entries, []) else
    var (entries', first) := Decide(cfg, entries, calls[0].key, calls[0].now);
    var (final, rest) := Run(cfg, entries', calls[1..]);
    (final, [first] + rest)
  }

  /** Without a limit or without a window there is no limiting: over every run every call is allowed at
      once and nothing is counted. */
  lemma {:induction false} InactiveAllowsAll(cfg: Config, entries: Entries, calls: seq<Call>)
    requires cfg.limit <= 0 || cfg.window <= 0
    ensures Run(cfg, entries, calls).0 == entries
    ensures forall i :: 0 <= i < |calls| ==>
              Run(cfg, entries, calls).1[i].allowed && Run(cfg, entries, calls).1[i].retryAfter == 0
    decreases |calls|
  {
    if calls != [] {
      InactiveAllowsAll(cfg, entries, calls[1..]);
      assert forall i :: 1 <= i < |calls| ==>
          Run(cfg, entries, calls).1[i] == Run(cfg, entries, calls[1..]).1[i - 1];
    }
  }

  // ----- One key is a limiter of its own -----

  function Times(calls: seq<Call>, key: string): seq<Instant> {
    if calls == [] then []
    else (if calls[0].key == key then [calls[0].now] else []) + Times(calls[1..], key)
  }

  function DecisionsFor(calls: seq<Call>, decisions: seq<Decision>, key: string): seq<Decision>
    requires |decisions| == |calls|
  {
    if calls == [] then []
    else (if calls[0].key == key then [decisions[0]] else []) + DecisionsFor(calls[1..], decisions[1..], key)
  }

  function RunKey(cfg: Config, entry: Entry, times: seq<Instant>): (r: (Entry, seq<Decision>))
    ensures |r.1| == |times|
    decreases |times|
  {
    if times == [] then (entry, []) else
    var (entry', first) := Advance(cfg, entry, times[0]);
    var (final, rest) := RunKey(cfg, entry', times[1..]);
    (final, [first] + rest)
  }

  /** Whatever the other keys do, a key's entry and decisions are those of a limiter
      that sees only that key's calls. */
  lemma {:induction false} KeysAreIndependent(cfg: Config, entries: Entries, calls: seq<Call>, key: string)
    requires cfg.Active()
    ensures var (final, decisions) := Run(cfg, entries, calls);
            RunKey(cfg, Lookup(entries, key), Times(calls, key))
            == (Lookup(final, key), DecisionsFor(calls, decisions, key))
    decreases |calls|
  {
    if calls != [] {
      var call := calls[0];
      var (entries', first) := Decide(cfg, entries, call.key, call.now);
      KeysAreIndependent(cfg, entries', calls[1..], key);
      var decisions := Run(cfg, entries, calls).1;
      assert decisions[1..] == Run(cfg, entries', calls[1..]).1;
      if call.key == key {
        assert Times(calls, key)[1..] == Times(calls[1..], key);
        assert Lookup(entries', key) == Advance(cfg, Lookup(entries, key), call.now).0;
      } else {
        assert Times(calls, key) == Times(calls[1..], key);
        assert DecisionsFor(calls, decisions, key) == DecisionsFor(calls[1..], decisions[1..], key);
      }
    }
  }

  // ----- Facts that survive clock readings out of order -----

  predicate WellFormed(cfg: Config, entries: Entries) {
    forall key <- entries :: ZERO_TIME < entries[key].windowStart && 1 <= entries[key].count <= cfg.limit
  }

  /** In every order of clock readings: stored counts stay within 1..limit, no entry
      disappears, and a key's window start is kept or moves on by a whole window at least. */
  lemma {:induction false} WindowsStayApart(cfg: Config, entries: Entries, calls: seq<Call>)
    requires cfg.Active() && WellFormed(cfg, entries)
    ensures var final := Run(cfg, entries, calls).0;
            && WellFormed(cfg, final)
            && entries.Keys <= final.Keys
            && forall key <- entries ::
                 || (final[key].windowStart == entries[key].windowStart && entries[key].count <= final[key].count)
                 || entries[key].windowStart + cfg.window <= final[key].windowStart
    decreases |calls|
  {
    if calls != [] {
      var entries' := Decide(cfg, entries, calls[0].key, calls[0].now).0;
      WindowsStayApart(cfg, entries', calls[1..]);
    }
  }

  // ----- The sliding-window bound -----

  /** No reading lies more than `skew` before one that reached the limiter earlier. */
  predicate Skewed(calls: seq<Call>, skew: int) {
    forall i, j :: 0 <= i < j < |calls| ==> calls[i].now - skew <= calls[j].now
  }

  predicate SkewedTimes(times: seq<Instant>, skew: int) {
    forall i, j :: 0 <= i < j < |times| ==> times[i] - skew <= times[j]
  }

  /** How many calls of `key` with a reading in [lo, hi) were allowed. */
  function AllowedCalls(calls: seq<Call>, decisions: seq<Decision>, key: string, lo: int, hi: int): nat
    requires |decisions| == |calls|
  {
    if calls == [] then 0
    else (if calls[0].key == key && lo <= calls[0].now < hi && decisions[0].allowed then 1 else 0)
         + AllowedCalls(calls[1..], decisions[1..], key, lo, hi)
  }

  function AllowedTimes(times: seq<Instant>, decisions: seq<Decision>, lo: int, hi: int): nat
    requires |decisions| == |times|
  {
    if times == [] then 0
    else (if lo <= times[0] < hi && decisions[0].allowed then 1 else 0)
         + AllowedTimes(times[1..], decisions[1..], lo, hi)
  }

  lemma {:induction false} DecisionsForLength(calls: seq<Call>, decisions: seq<Decision>, key: string)
    requires |decisions| == |calls|
    ensures |DecisionsFor(calls, decisions, key)| == |Times(calls, key)|
  {
    if calls != [] {
      DecisionsForLength(calls[1..], decisions[1..], key);
    }
  }

  lemma {:induction false} CountByKey(calls: seq<Call>, decisions: seq<Decision>, key: string, lo: int, hi: int)
    requires |decisions| == |calls|
    ensures |DecisionsFor(calls, decisions, key)| == |Times(calls, key)|
    ensures AllowedCalls(calls, decisions, key, lo, hi)
         == AllowedTimes(Times(calls, key), DecisionsFor(calls, decisions, key), lo, hi)
  {
    DecisionsForLength(calls, decisions, key);
    if calls != [] {
      CountByKey(calls[1..], decisions[1..], key, lo, hi);
      if calls[0].key == key {
        assert Times(calls, key)[1..] == Times(calls[1..], key);
        assert DecisionsFor(calls, decisions, key)[1..] == DecisionsFor(calls[1..], decisions[1..], key);
      } else {
        assert Times(calls, key) == Times(calls[1..], key);
        assert DecisionsFor(calls, decisions, key) == DecisionsFor(calls[1..], decisions[1..], key);
      }
    }
  }

  lemma {:induction false} TimesFrom(calls: seq<Call>, key: string, earliest: int)
    requires forall i :: 0 <= i < |calls| ==> earliest <= calls[i].now
    ensures forall i :: 0 <= i < |Times(calls, key)| ==> earliest <= Times(calls, key)[i]
  {
    if calls != [] {
      TimesFrom(calls[1..], key, earliest);
    }
  }

  lemma {:induction false} TimesSkewed(calls: seq<Call>, key: string, skew: int)
    requires Skewed(calls, skew)
    ensures SkewedTimes(Times(calls, key), skew)
  {
    if calls != [] {
      TimesSkewed(calls[1..], key, skew);
      TimesFrom(calls[1..], key, calls[0].now - skew);
    }
  }

  /** How many windows can start in [lo, hi) when starts are `window` apart. */
  function Slots(lo: int, hi: int, window: int): nat
    requires 0 < window
    decreases hi - lo
  {
    if hi <= lo then 0 else 1 + Slots(lo + window, hi, window)
  }

  lemma {:induction false} SlotsMonotone(lo: int, later: int, hi: int, window: int)
    requires 0 < window && lo <= later
    ensures Slots(later, hi, window) <= Slots(lo, hi, window)
    decreases hi - lo
  {
    if lo < hi { SlotsMonotone(lo + window, later + window, hi, window); }
  }

  lemma {:induction false} SlotsFit(lo: int, hi: int, window: int, k: nat)
    requires 0 < window && hi - lo <= k * window
    ensures Slots(lo, hi, window) <= k
    decreases k
  {
    if lo < hi {
      assert k != 0;
      assert (k - 1) * window == k * window - window;
      SlotsFit(lo + window, hi, window, k - 1);
    }
  }

  // What is still left for the window that `entry` opened, if a call in [lo, hi) can fall into it.
  // A window that starts at hi is within reach of a reading that is late by one.
  function Left(cfg: Config, entry: Entry, lo: int, hi: int): int {
    if entry.windowStart != ZERO_TIME && lo - cfg.window < entry.windowStart <= hi then cfg.limit - entry.count else 0
  }

  // The earliest start of a later window that can hold a call in [lo, hi).
  function NextStart(cfg: Config, entry: Entry, lo: int): int {
    var reach := lo - cfg.window + 1;
    if entry.windowStart != ZERO_TIME && reach < entry.windowStart + cfg.window
    then entry.windowStart + cfg.window else reach
  }

  // How many calls before hi windows that start at `reach` or later can let through. Of a window that
  // starts at hi, the call that opens it is too late.
  function Fill(cfg: Config, reach: int, hi: int): int
    requires cfg.Active()
  {
    var before, upto := cfg.limit * Slots(reach, hi, cfg.window), cfg.limit * Slots(reach, hi + 1, cfg.window);
    if before < upto - 1 then upto - 1 else before
  }

  // The same for calls in [lo, hi). Of a window that starts before lo, the call that opens it is too early.
  function Room(cfg: Config, reach: int, lo: int, hi: int): int
    requires cfg.Active()
  {
    if lo <= reach then Fill(cfg, reach, hi) else
    var inside, across := Fill(cfg, lo, hi), cfg.limit - 1 + Fill(cfg, reach + cfg.window, hi);
    if inside < across then across else inside
  }

  lemma RoomShrinks(cfg: Config, reach: int, later: int, lo: int, hi: int)
    requires cfg.Active() && reach <= later
    ensures Room(cfg, later, lo, hi) <= Room(cfg, reach, lo, hi)
  {
    FillShrinks(cfg, reach, later, hi);
    FillShrinks(cfg, reach + cfg.window, later + cfg.window, hi);
    if lo <= later { FillShrinks(cfg, lo, later, hi); }
  }

  lemma FillShrinks(cfg: Config, reach: int, later: int, hi: int)
    requires cfg.Active() && reach <= later
    ensures Fill(cfg, later, hi) <= Fill(cfg, reach, hi)
  {
    SlotsMonotone(reach, later, hi, cfg.window);
    SlotsMonotone(reach, later, hi + 1, cfg.window);
    Scale(cfg.limit, Slots(later, hi, cfg.window), Slots(reach, hi, cfg.window));
    Scale(cfg.limit, Slots(later, hi + 1, cfg.window), Slots(reach, hi + 1, cfg.window));
  }

  lemma FillIsNotNegative(cfg: Config, reach: int, hi: int)
    requires cfg.Active()
    ensures 0 <= Fill(cfg, reach, hi)
  {
    Scale(cfg.limit, 0, Slots(reach, hi, cfg.window));
  }

  lemma {:induction false} KeyBound(cfg: Config, entry: Entry, times: seq<Instant>, lo: int, hi: int)
    requires cfg.Active() && lo <= hi && SkewedTimes(times, 1)
    requires entry.windowStart != ZERO_TIME ==> 1 <= entry.count <= cfg.limit && 0 < entry.windowStart
    requires entry.windowStart == ZERO_TIME ==> entry.count == 0
    requires forall i :: 0 <= i < |times| ==> entry.windowStart - 1 <= times[i]
    ensures AllowedTimes(times, RunKey(cfg, entry, times).1, lo, hi)
         <= Left(cfg, entry, lo, hi) + Room(cfg, NextStart(cfg, entry, lo), lo, hi)
    decreases |times|
  {
    if times == [] {
      FillIsNotNegative(cfg, NextStart(cfg, entry, lo), hi);
      FillIsNotNegative(cfg, lo, hi);
    } else {
      var now := times[0];
      var (entry', decision) := Advance(cfg, entry, now);
      KeyBound(cfg, entry', times[1..], lo, hi);
      if entry.windowStart == ZERO_TIME || entry.windowStart + cfg.window <= now {
        NewWindowBound(cfg, entry, now, lo, hi);
      }
    }
  }

  // Opening a window at `now` uses up some of the room counted before.
  lemma NewWindowBound(cfg: Config, entry: Entry, now: Instant, lo: int, hi: int)
    requires cfg.Active() && lo <= hi
    requires entry.windowStart == ZERO_TIME || entry.windowStart + cfg.window <= now
    requires entry.windowStart != ZERO_TIME ==> entry.count <= cfg.limit
    ensures (if lo <= now < hi then 1 else 0) + Left(cfg, Entry(now, 1), lo, hi)
              + Room(cfg, NextStart(cfg, Entry(now, 1), lo), lo, hi)
         <= Left(cfg, entry, lo, hi) + Room(cfg, NextStart(cfg, entry, lo), lo, hi)
  {
    var before, after := NextStart(cfg, entry, lo), NextStart(cfg, Entry(now, 1), lo);
    if lo - cfg.window < now <= hi {
      assert after == now + cfg.window && before <= now;
      RoomShrinks(cfg, before, now, lo, hi);
      OpenedRoom(cfg, now, lo, hi);
    } else {
      RoomShrinks(cfg, before, after, lo, hi);
    }
  }

  lemma OpenedRoom(cfg: Config, now: Instant, lo: int, hi: int)
    requires cfg.Active() && lo <= hi && lo - cfg.window < now <= hi
    ensures (if lo <= now < hi then cfg.limit else cfg.limit - 1) + Room(cfg, now + cfg.window, lo, hi)
         <= Room(cfg, now, lo, hi)
  {
    var slots, slots' := Slots(now + cfg.window, hi, cfg.window), Slots(now + cfg.window, hi + 1, cfg.window);
    assert cfg.limit * (1 + slots) == cfg.limit + cfg.limit * slots;
    assert cfg.limit * (1 + slots') == cfg.limit + cfg.limit * slots';
  }

  lemma {:induction false} RunBound(cfg: Config, calls: seq<Call>, key: string, lo: int, hi: int)
    requires cfg.Active() && lo <= hi && Skewed(calls, 1)
    ensures AllowedCalls(calls, Run(cfg, map[], calls).1, key, lo, hi) <= Room(cfg, lo - cfg.window + 1, lo, hi)
  {
    KeysAreIndependent(cfg, map[], calls, key);
    CountByKey(calls, Run(cfg, map[], calls).1, key, lo, hi);
    TimesSkewed(calls, key, 1);
    KeyBound(cfg, Lookup(map[], key), Times(calls, key), lo, hi);
  }

  lemma RoomFits(cfg: Config, lo: int, k: nat, hi: int)
    requires cfg.Active() && hi == lo + k * cfg.window
    ensures Room(cfg, lo - cfg.window + 1, lo, hi) < (k + 1) * cfg.limit
  {
    assert (k + 1) * cfg.limit == k * cfg.limit + cfg.limit;
    FillFits(cfg, lo, k, hi);
    FillFits(cfg, lo + 1, k, hi);
    SlotsFit(lo + 1, hi + 1, cfg.window, k);
    Scale(cfg.limit, Slots(lo + 1, hi + 1, cfg.window), k);
  }

  lemma {:induction false} FillFits(cfg: Config, reach: int, k: nat, hi: int)
    requires cfg.Active() && hi <= reach + k * cfg.window
    ensures cfg.limit * Slots(reach, hi, cfg.window) <= k * cfg.limit
    ensures Fill(cfg, reach, hi) <= k * cfg.limit + cfg.limit - 1
  {
    assert (k + 1) * cfg.window == k * cfg.window + cfg.window;
    assert (k + 1) * cfg.limit == k * cfg.limit + cfg.limit;
    SlotsFit(reach, hi, cfg.window, k);
    SlotsFit(reach, hi + 1, cfg.window, k + 1);
    Scale(cfg.limit, Slots(reach, hi, cfg.window), k);
    Scale(cfg.limit, Slots(reach, hi + 1, cfg.window), k + 1);
  }

  // ----- A limit of one -----

  // Only calls that open a window get through, and those are a window apart in any order of readings.
  lemma {:induction false} OpeningsBound(cfg: Config, entry: Entry, times: seq<Instant>, lo: int, hi: int)
    requires cfg.Active() && cfg.limit == 1
    requires entry.windowStart != ZERO_TIME ==> entry.count == 1 && 0 < entry.windowStart
    requires entry.windowStart == ZERO_TIME ==> entry.count == 0
    ensures AllowedTimes(times, RunKey(cfg, entry, times).1, lo, hi)
         <= Slots(NextOpening(cfg, entry, lo), hi, cfg.window)
    decreases |times|
  {
    if times != [] {
      var (entry', decision) := Advance(cfg, entry, times[0]);
      OpeningsBound(cfg, entry', times[1..], lo, hi);
      if decision.allowed {
        SlotsMonotone(NextOpening(cfg, entry, lo), NextOpening(cfg, entry', lo), hi, cfg.window);
        if lo <= times[0] { SlotsMonotone(NextOpening(cfg, entry, lo), times[0], hi, cfg.window); }
      }
    }
  }

  function NextOpening(cfg: Config, entry: Entry, lo: int): int {
    if entry.windowStart != ZERO_TIME && lo < entry.windowStart + cfg.window then entry.windowStart + cfg.window else lo
  }

  lemma OneAtATime(cfg: Config, calls: seq<Call>, key: string, lo: int, k: nat)
    requires cfg.Active() && cfg.limit == 1
    ensures AllowedCalls(calls, Run(cfg, map[], calls).1, key, lo, lo + k * cfg.window) <= k
  {
    var hi := lo + k * cfg.window;
    KeysAreIndependent(cfg, map[], calls, key);
    CountByKey(calls, Run(cfg, map[], calls).1, key, lo, hi);
    OpeningsBound(cfg, Lookup(map[], key), Times(calls, key), lo, hi);
    SlotsFit(lo, hi, cfg.window, k);
  }

  // ----- The bound -----

  /** Fewer than (k + 1) * limit calls of the key with a reading in the k windows from lo get through. */
  predicate Obeys(cfg: Config, calls: seq<Call>, key: string, lo: int, k: nat) {
    AllowedCalls(calls, Run(cfg, map[], calls).1, key, lo, lo + k * cfg.window) < (k + 1) * cfg.limit
  }

  /** With a clock that never goes back, fewer than (k + 1) * limit calls of a key get through in
      any half-open stretch of k windows. Readings late by one nanosecond do not matter, and with
      a limit of one the order of the readings does not matter at all. */
  lemma SlidingWindowBound(cfg: Config, calls: seq<Call>, key: string, lo: int, k: nat)
    requires cfg.Active() && (Skewed(calls, 1) || cfg.limit == 1)
    ensures Obeys(cfg, calls, key, lo, k)
  {
    if cfg.limit == 1 {
      OneAtATime(cfg, calls, key, lo, k);
    } else {
      var hi := lo + k * cfg.window;
      Scale(cfg.window, 0, k);
      RunBound(cfg, calls, key, lo, hi);
      RoomFits(cfg, lo, k, hi);
    }
  }

  lemma Scale(factor: nat, a: nat, b: nat)
    requires a <= b
    ensures factor * a <= b * factor
  {}

  // ----- Runs that reach it -----

  function CallsAt(key: string, times: seq<Instant>): seq<Call> {
    seq(|times|, i requires 0 <= i < |times| => Call(key, times[i]))
  }

  lemma {:induction false} TimesOfCalls(key: string, times: seq<Instant>)
    ensures Times(CallsAt(key, times), key) == times
  {
    if times != [] {
      assert CallsAt(key, times)[1..] == CallsAt(key, times[1..]);
      TimesOfCalls(key, times[1..]);
    }
  }

  // How many readings in [lo, hi) get through, one by one.
  function Passed(cfg: Config, entry: Entry, times: seq<Instant>, lo: int, hi: int): nat
    decreases |times|
  {
    if times == [] then 0 else
    var (entry', decision) := Advance(cfg, entry, times[0]);
    (if lo <= times[0] < hi && decision.allowed then 1 else 0) + Passed(cfg, entry', times[1..], lo, hi)
  }

  lemma {:induction false} PassedIsAllowed(cfg: Config, entry: Entry, times: seq<Instant>, lo: int, hi: int)
    ensures Passed(cfg, entry, times, lo, hi) == AllowedTimes(times, RunKey(cfg, entry, times).1, lo, hi)
    decreases |times|
  {
    if times != [] {
      PassedIsAllowed(cfg, Advance(cfg, entry, times[0]).0, times[1..], lo, hi);
    }
  }

  lemma {:induction false} PassedByKey(cfg: Config, key: string, times: seq<Instant>, lo: int, hi: int)
    requires cfg.Active()
    ensures AllowedCalls(CallsAt(key, times), Run(cfg, map[], CallsAt(key, times)).1, key, lo, hi)
         == Passed(cfg, Entry(ZERO_TIME, 0), times, lo, hi)
  {
    var calls := CallsAt(key, times);
    KeysAreIndependent(cfg, map[], calls, key);
    CountByKey(calls, Run(cfg, map[], calls).1, key, lo, hi);
    TimesOfCalls(key, times);
    PassedIsAllowed(cfg, Entry(ZERO_TIME, 0), times, lo, hi);
  }

  function Burst(now: Instant, n: nat): seq<Instant> {
    if n == 0 then [] else [now] + Burst(now, n - 1)
  }

  // `count` windows, each filled at its very start, then one more that is opened and gets n calls
  // whose readings are late by two.
  function FullWindows(cfg: Config, now: Instant, count: nat, n: nat): seq<Instant>
    requires cfg.Active() && 2 < now
    decreases count
  {
    if count == 0 then [now] + Burst(now - 2, n)
    else Burst(now, cfg.limit) + FullWindows(cfg, now + cfg.window, count - 1, n)
  }

  // A window opened as early as it can be and still reach lo, filled at lo, and full ones after it.
  function Crowd(cfg: Config, lo: int, k: nat, n: nat): seq<Instant>
    requires cfg.Active() && 2 <= cfg.window <= lo
  {
    [lo - cfg.window + 1] + (Burst(lo, cfg.limit - 1) + FullWindows(cfg, lo + 1, k, n))
  }

  predicate Elapsed(cfg: Config, entry: Entry, now: int) {
    entry.windowStart == ZERO_TIME || entry.windowStart + cfg.window <= now
  }

  lemma {:induction false} OpeningPasses(cfg: Config, entry: Entry, now: Instant, rest: seq<Instant>, lo: int, hi: int)
    requires cfg.Active() && Elapsed(cfg, entry, now)
    ensures Passed(cfg, entry, [now] + rest, lo, hi)
         == (if lo <= now < hi then 1 else 0) + Passed(cfg, Entry(now, 1), rest, lo, hi)
  {
    assert ([now] + rest)[1..] == rest;
  }

  lemma {:induction false} NextPasses(cfg: Config, began: Instant, count: nat, now: Instant, rest: seq<Instant>,
                                      lo: int, hi: int)
    requires cfg.Active() && now < began + cfg.window && count < cfg.limit
    ensures Passed(cfg, Entry(began, count), [now] + rest, lo, hi)
         == (if lo <= now < hi then 1 else 0) + Passed(cfg, Entry(began, count + 1), rest, lo, hi)
  {
    assert ([now] + rest)[1..] == rest;
  }

  lemma BurstStart(now: Instant, n: nat, rest: seq<Instant>)
    ensures Burst(now, n) + rest == if n == 0 then rest else [now] + (Burst(now, n - 1) + rest)
  {}

  // A burst that fits into the open window gets through.
  lemma {:induction false} BurstPasses(cfg: Config, began: Instant, count: nat, now: Instant, n: nat,
                                       rest: seq<Instant>, lo: int, hi: int)
    requires cfg.Active() && now < began + cfg.window && count + n <= cfg.limit
    ensures Passed(cfg, Entry(began, count), Burst(now, n) + rest, lo, hi)
         == (if lo <= now < hi then n else 0) + Passed(cfg, Entry(began, count + n), rest, lo, hi)
    decreases n
  {
    BurstStart(now, n, rest);
    if n != 0 {
      NextPasses(cfg, began, count, now, Burst(now, n - 1) + rest, lo, hi);
      BurstPasses(cfg, began, count + 1, now, n - 1, rest, lo, hi);
    }
  }

  // So do as many calls as the limit says when the last window is over.
  lemma {:induction false} FullWindowPasses(cfg: Config, entry: Entry, now: Instant, rest: seq<Instant>, lo: int,
                                            hi: int)
    requires cfg.Active() && lo <= now < hi && Elapsed(cfg, entry, now)
    ensures Passed(cfg, entry, Burst(now, cfg.limit) + rest, lo, hi)
         == cfg.limit + Passed(cfg, Entry(now, cfg.limit), rest, lo, hi)
  {
    BurstStart(now, cfg.limit, rest);
    OpeningPasses(cfg, entry, now, Burst(now, cfg.limit - 1) + rest, lo, hi);
    BurstPasses(cfg, now, 1, now, cfg.limit - 1, rest, lo, hi);
  }

  // Late readings get into the window that the next one opened.
  lemma LatePass(cfg: Config, entry: Entry, n: nat, lo: int, hi: Instant)
    requires cfg.Active() && 1 < hi && lo < hi && n < cfg.limit && Elapsed(cfg, entry, hi + 1)
    ensures Passed(cfg, entry, [hi + 1] + Burst(hi - 1, n), lo, hi) == n
  {
    OpeningPasses(cfg, entry, hi + 1, Burst(hi - 1, n), lo, hi);
    BurstPasses(cfg, hi + 1, 1, hi - 1, n, [], lo, hi);
    assert Burst(hi - 1, n) + [] == Burst(hi - 1, n);
  }

  // count * unit, without the multiplication.
  function Span(count: nat, unit: nat): nat {
    if count == 0 then 0 else unit + Span(count - 1, unit)
  }

  lemma {:induction false} SpanIsProduct(count: nat, unit: nat)
    ensures Span(count, unit) == count * unit
  {
    if count != 0 {
      SpanIsProduct(count - 1, unit);
      assert count * unit == (count - 1) * unit + unit;
    }
  }

  lemma {:induction false} FullWindowsPass(cfg: Config, entry: Entry, now: Instant, count: nat, n: nat, lo: int,
                                           hi: int)
    requires cfg.Active() && 2 <= cfg.window && 2 < now && lo <= now && now + Span(count, cfg.window) == hi + 1
    requires lo < hi && n < cfg.limit && Elapsed(cfg, entry, now)
    ensures Passed(cfg, entry, FullWindows(cfg, now, count, n), lo, hi) == Span(count, cfg.limit) + n
    decreases count
  {
    if count == 0 {
      LatePass(cfg, entry, n, lo, hi);
    } else {
      FullWindowPasses(cfg, entry, now, FullWindows(cfg, now + cfg.window, count - 1, n), lo, hi);
      FullWindowsPass(cfg, Entry(now, cfg.limit), now + cfg.window, count - 1, n, lo, hi);
    }
  }

  // A window opened too early to count, and filled in time.
  lemma EarlyWindowPasses(cfg: Config, start: Instant, now: Instant, rest: seq<Instant>, lo: int, hi: int)
    requires cfg.Active() && start < lo <= now < hi && now < start + cfg.window
    ensures Passed(cfg, Entry(ZERO_TIME, 0), [start] + (Burst(now, cfg.limit - 1) + rest), lo, hi)
         == cfg.limit - 1 + Passed(cfg, Entry(start, cfg.limit), rest, lo, hi)
  {
    OpeningPasses(cfg, Entry(ZERO_TIME, 0), start, Burst(now, cfg.limit - 1) + rest, lo, hi);
    BurstPasses(cfg, start, 1, now, cfg.limit - 1, rest, lo, hi);
  }

  lemma {:induction false} CrowdPasses(cfg: Config, lo: int, k: nat, n: nat, hi: int)
    requires cfg.Active() && 2 <= cfg.window <= lo < hi && hi == lo + Span(k, cfg.window) && n < cfg.limit
    ensures Passed(cfg, Entry(ZERO_TIME, 0), Crowd(cfg, lo, k, n), lo, hi)
         == cfg.limit - 1 + Span(k, cfg.limit) + n
  {
    EarlyWindowPasses(cfg, lo - cfg.window + 1, lo, FullWindows(cfg, lo + 1, k, n), lo, hi);
    FullWindowsPass(cfg, Entry(lo - cfg.window + 1, cfg.limit), lo + 1, k, n, lo, hi);
  }

  lemma {:induction false} CrowdCount(cfg: Config, key: string, lo: int, k: nat, n: nat)
    requires cfg.Active() && 2 <= cfg.window <= lo && 0 < k && n < cfg.limit
    ensures var calls := CallsAt(key, Crowd(cfg, lo, k, n));
            AllowedCalls(calls, Run(cfg, map[], calls).1, key, lo, lo + k * cfg.window) == (k + 1) * cfg.limit - 1 + n
  {
    SpanIsProduct(k, cfg.window);
    SpanIsProduct(k, cfg.limit);
    CrowdPasses(cfg, lo, k, n, lo + Span(k, cfg.window));
    PassedByKey(cfg, key, Crowd(cfg, lo, k, n), lo, lo + k * cfg.window);
    assert (k + 1) * cfg.limit == k * cfg.limit + cfg.limit;
  }

  predicate AllFrom(times: seq<Instant>, least: int) {
    forall time <- times :: least <= time
  }

  lemma SkewedCons(first: Instant, rest: seq<Instant>, skew: nat)
    requires SkewedTimes(rest, skew) && AllFrom(rest, first - skew)
    ensures SkewedTimes([first] + rest, skew)
  {
    var times := [first] + rest;
    forall i, j | 0 <= i < j < |times| ensures times[i] - skew <= times[j] {
      assert times[j] == rest[j - 1] && rest[j - 1] in rest;
      if i != 0 { assert times[i] == rest[i - 1]; }
    }
  }

  lemma {:induction false} BurstFrom(now: Instant, n: nat, rest: seq<Instant>, least: int)
    requires least <= now && AllFrom(rest, least)
    ensures AllFrom(Burst(now, n) + rest, least)
  {
    BurstStart(now, n, rest);
    if n != 0 { BurstFrom(now, n - 1, rest, least); }
  }

  lemma {:induction false} SkewedAfterBurst(now: Instant, n: nat, rest: seq<Instant>, skew: nat)
    requires SkewedTimes(rest, skew) && AllFrom(rest, now - skew)
    ensures SkewedTimes(Burst(now, n) + rest, skew)
    decreases n
  {
    BurstStart(now, n, rest);
    if n != 0 {
      SkewedAfterBurst(now, n - 1, rest, skew);
      BurstFrom(now, n - 1, rest, now - skew);
      SkewedCons(now, Burst(now, n - 1) + rest, skew);
    }
  }

  lemma LateSkewed(now: Instant, n: nat, skew: nat)
    requires skew <= 2 < now && (n == 0 || skew == 2)
    ensures SkewedTimes([now] + Burst(now - 2, n), skew)
    ensures AllFrom([now] + Burst(now - 2, n), now - skew)
  {
    assert Burst(now - 2, n) + [] == Burst(now - 2, n);
    SkewedAfterBurst(now - 2, n, [], skew);
    BurstFrom(now - 2, n, [], now - 2);
    SkewedCons(now, Burst(now - 2, n), skew);
  }

  lemma {:induction false} FullWindowsSkewed(cfg: Config, now: Instant, count: nat, n: nat, skew: nat)
    requires cfg.Active() && skew <= 2 <= cfg.window && 2 < now && (n == 0 || skew == 2)
    ensures SkewedTimes(FullWindows(cfg, now, count, n), skew)
    ensures AllFrom(FullWindows(cfg, now, count, n), if count == 0 then now - skew else now)
    decreases count
  {
    if count == 0 {
      LateSkewed(now, n, skew);
    } else {
      var rest := FullWindows(cfg, now + cfg.window, count - 1, n);
      FullWindowsSkewed(cfg, now + cfg.window, count - 1, n, skew);
      SkewedAfterBurst(now, cfg.limit, rest, skew);
      BurstFrom(now, cfg.limit, rest, now);
    }
  }

  lemma CrowdSkewed(cfg: Config, lo: int, k: nat, n: nat, skew: nat)
    requires cfg.Active() && skew <= 2 <= cfg.window <= lo && 0 < k && (n == 0 || skew == 2)
    ensures SkewedTimes(Crowd(cfg, lo, k, n), skew)
  {
    var full := FullWindows(cfg, lo + 1, k, n);
    FullWindowsSkewed(cfg, lo + 1, k, n, skew);
    SkewedAfterBurst(lo, cfg.limit - 1, full, skew);
    BurstFrom(lo, cfg.limit - 1, full, lo);
    SkewedCons(lo - cfg.window + 1, Burst(lo, cfg.limit - 1) + full, skew);
  }

  /** The bound is exact: with a clock that never goes back, one call less than (k + 1) * limit
      does get through. */
  lemma {:induction false} BoundIsReached(cfg: Config, key: string, lo: int, k: nat)
    requires cfg.Active() && 2 <= cfg.window <= lo && 0 < k
    ensures var calls := CallsAt(key, Crowd(cfg, lo, k, 0));
            && Skewed(calls, 0)
            && AllowedCalls(calls, Run(cfg, map[], calls).1, key, lo, lo + k * cfg.window) == (k + 1) * cfg.limit - 1
  {
    CrowdSkewed(cfg, lo, k, 0, 0);
    CrowdCount(cfg, key, lo, k, 0);
  }

  /** `now` is read before the lock is taken, so readings can reach the limiter out of order. How far
      out of order they may be for the bound to hold: by one nanosecond at most, unless the limit is
      one. Under every larger skew some run breaks it. */
  lemma BoundHoldsIff(cfg: Config, skew: nat, key: string, lo: int, k: nat)
    requires cfg.Active() && 2 <= cfg.window <= lo && 0 < k
    ensures (forall calls :: Skewed(calls, skew) ==> Obeys(cfg, calls, key, lo, k)) <==> cfg.limit == 1 || skew <= 1
  {
    if cfg.limit == 1 || skew <= 1 {
      forall calls | Skewed(calls, skew) ensures Obeys(cfg, calls, key, lo, k) {
        SlidingWindowBound(cfg, calls, key, lo, k);
      }
    } else {
      var calls := CallsAt(key, Crowd(cfg, lo, k, cfg.limit - 1));
      CrowdSkewed(cfg, lo, k, cfg.limit - 1, 2);
      CrowdCount(cfg, key, lo, k, cfg.limit - 1);
      assert Skewed(calls, skew) && !Obeys(cfg, calls, key, lo, k);
    }
  }

  // `rounds` times: a reading a window later than any before, then a reading back at `lo`.
  function BackAndForth(rounds: nat, lo: Instant, next: Instant, window: nat): seq<Instant> {
    if rounds == 0 then [] else [next] + ([lo] + BackAndForth(rounds - 1, lo, next + window, window))
  }

  lemma {:induction false} EveryRoundPasses(cfg: Config, entry: Entry, rounds: nat, lo: Instant, next: Instant)
    requires cfg.Active() && 2 <= cfg.limit && lo + cfg.window <= next && Elapsed(cfg, entry, next)
    ensures Passed(cfg, entry, BackAndForth(rounds, lo, next, cfg.window), lo, lo + cfg.window) == rounds
    decreases rounds
  {
    if rounds != 0 {
      var rest := BackAndForth(rounds - 1, lo, next + cfg.window, cfg.window);
      OpeningPasses(cfg, entry, next, [lo] + rest, lo, lo + cfg.window);
      NextPasses(cfg, next, 1, lo, rest, lo, lo + cfg.window);
      EveryRoundPasses(cfg, Entry(next, 2), rounds - 1, lo, next + cfg.window);
    }
  }

  /** With a limit of two or more and readings late by any amount, there is no bound of any kind: any
      number of calls with readings in one window get through. */
  lemma DisorderDefeatsTheBound(cfg: Config, rounds: nat, key: string, lo: Instant)
    requires cfg.Active() && 2 <= cfg.limit
    ensures var calls := CallsAt(key, BackAndForth(rounds, lo, lo + cfg.window, cfg.window));
            AllowedCalls(calls, Run(cfg, map[], calls).1, key, lo, lo + cfg.window) == rounds
  {
    EveryRoundPasses(cfg, Entry(ZERO_TIME, 0), rounds, lo, lo + cfg.window);
    PassedByKey(cfg, key, BackAndForth(rounds, lo, lo + cfg.window, cfg.window), lo, lo + cfg.window);
  }

  // ----- What is advertised as remaining -----

  // Calls in an open window get through until it is full.
  lemma {:induction false} RoomInWindow(cfg: Config, entry: Entry, times: seq<Instant>, i: nat)
    requires cfg.Active() && ZERO_TIME < entry.windowStart && i < |times|
    requires forall j :: 0 <= j <= i ==> times[j] < entry.windowStart + cfg.window
    ensures RunKey(cfg, entry, times).1[i].allowed <==> entry.count + i < cfg.limit
    decreases i
  {
    if i != 0 {
      if entry.count < cfg.limit {
        RoomInWindow(cfg, Advance(cfg, entry, times[0]).0, times[1..], i - 1);
      } else {
        RoomInWindow(cfg, entry, times[1..], i - 1);
      }
    }
  }

  /** After a call that was allowed with `remaining` left, the key gets exactly that many more calls
      through before its window ends; the call itself advertises no wait. */
  lemma {:induction false} RemainingIsExact(cfg: Config, stored: Entry, now: Instant, times: seq<Instant>, i: nat)
    requires cfg.Active() && (stored.windowStart == ZERO_TIME || 1 <= stored.count)
    requires Advance(cfg, stored, now).1.allowed && i < |times|
    requires stored.windowStart == ZERO_TIME || ZERO_TIME < stored.windowStart
    requires forall j :: 0 <= j <= i ==> times[j] < Advance(cfg, stored, now).0.windowStart + cfg.window
    ensures RunKey(cfg, Advance(cfg, stored, now).0, times).1[i].allowed <==> i < Advance(cfg, stored, now).1.remaining
    ensures Advance(cfg, stored, now).1.retryAfter == 0 && 0 <= Advance(cfg, stored, now).1.remaining < cfg.limit
  {
    RoomInWindow(cfg, Advance(cfg, stored, now).0, times, i);
  }

  // ----- The retry time -----

  // The instant at which the window of `key` ends.
  function WindowEnd(cfg: Config, entries: Entries, key: string): int {
    Lookup(entries, key).windowStart + cfg.window
  }

  lemma {:induction false} DeniedUntilWindowEnds(cfg: Config, entries: Entries, key: string, calls: seq<Call>, i: nat)
    requires cfg.Active() && key in entries && ZERO_TIME < entries[key].windowStart && cfg.limit <= entries[key].count
    requires i < |calls| && calls[i].key == key
    requires forall j :: 0 <= j < i && calls[j].key == key ==> calls[j].now < WindowEnd(cfg, entries, key)
    ensures Run(cfg, entries, calls).1[i].allowed <==> WindowEnd(cfg, entries, key) <= calls[i].now
    decreases i
  {
    if i != 0 {
      var entries' := Decide(cfg, entries, calls[0].key, calls[0].now).0;
      assert entries'[key] == entries[key];
      DeniedUntilWindowEnds(cfg, entries', key, calls[1..], i - 1);
    }
  }

  predicate StartedBy(entries: Entries, now: int) {
    forall key <- entries :: entries[key].windowStart <= now
  }

  lemma {:induction false} StartsInThePast(cfg: Config, entries: Entries, calls: seq<Call>, now: int)
    requires StartedBy(entries, now)
    requires forall i :: 0 <= i < |calls| ==> calls[i].now <= now
    ensures StartedBy(Run(cfg, entries, calls).0, now)
    decreases |calls|
  {
    if calls != [] {
      var entries' := Decide(cfg, entries, calls[0].key, calls[0].now).0;
      assert StartedBy(entries', now);
      StartsInThePast(cfg, entries', calls[1..], now);
    }
  }

  // The denial itself: the window it refers to ends exactly at now + r.
  lemma DenialNamesWindowEnd(cfg: Config, entries: Entries, key: string, now: Instant)
    requires cfg.Active() && WellFormed(cfg, entries)
    requires !Decide(cfg, entries, key, now).1.allowed
    ensures Decide(cfg, entries, key, now).0 == entries
    ensures key in entries && entries[key].count == cfg.limit
    ensures now + Decide(cfg, entries, key, now).1.retryAfter == WindowEnd(cfg, entries, key)
    ensures 0 < Decide(cfg, entries, key, now).1.retryAfter
    ensures StartedBy(entries, now) ==> Decide(cfg, entries, key, now).1.retryAfter <= cfg.window
  {}

  /** Along `later`, calls of `key` are denied until the first that reads `due` or later,
      and that one is allowed. */
  ghost predicate BlockedUntil(cfg: Config, entries: Entries, key: string, later: seq<Call>, due: int) {
    forall i :: 0 <= i < |later| && later[i].key == key
      && (forall j :: 0 <= j < i && later[j].key == key ==> later[j].now < due)
      ==> (Run(cfg, entries, later).1[i].allowed <==> due <= later[i].now)
  }

  lemma BlockedUntilWindowEnds(cfg: Config, entries: Entries, key: string, later: seq<Call>)
    requires cfg.Active() && key in entries && ZERO_TIME < entries[key].windowStart && cfg.limit <= entries[key].count
    ensures BlockedUntil(cfg, entries, key, later, WindowEnd(cfg, entries, key))
  {
    var due := WindowEnd(cfg, entries, key);
    forall i | 0 <= i < |later| && later[i].key == key
               && (forall j :: 0 <= j < i && later[j].key == key ==> later[j].now < due)
      ensures Run(cfg, entries, later).1[i].allowed <==> due <= later[i].now
    {
      DeniedUntilWindowEnds(cfg, entries, key, later, i);
    }
  }

  /** After a denial at `now` with RetryAfter r, whatever calls follow in whatever order of
      clock readings, the key stays blocked until now + r and not longer. r is positive,
      and no longer than a window if no reading before the denial was later than `now`. */
  lemma {:induction false} RetryAfterIsExact(cfg: Config, past: seq<Call>, key: string, now: Instant, later: seq<Call>)
    requires cfg.Active()
    requires !Decide(cfg, Run(cfg, map[], past).0, key, now).1.allowed
    ensures 0 < Decide(cfg, Run(cfg, map[], past).0, key, now).1.retryAfter
    ensures (forall i :: 0 <= i < |past| ==> past[i].now <= now)
            ==> Decide(cfg, Run(cfg, map[], past).0, key, now).1.retryAfter <= cfg.window
    ensures BlockedUntil(cfg, Decide(cfg, Run(cfg, map[], past).0, key, now).0, key, later,
                         now + Decide(cfg, Run(cfg, map[], past).0, key, now).1.retryAfter)
  {
    var entries := Run(cfg, map[], past).0;
    WindowsStayApart(cfg, map[], past);
    DenialNamesWindowEnd(cfg, entries, key, now);
    BlockedUntilWindowEnds(cfg, entries, key, later);
    if forall i :: 0 <= i < |past| ==> past[i].now <= now {
      StartsInThePast(cfg, map[], past, now);
    }
  }

  // ----- The advertised Retry-After header (internal/web/security.go) -----

  const SECOND := 1_000_000_000

  // time.Duration.Round(time.Second) of a duration that is not negative: halves go up.
  function RoundToSecond(d: nat): nat {
    var r := d % SECOND;
    if r + r < SECOND then d - r else d + SECOND - r
  }

  function RetryAfterSeconds(d: nat): int {
    var seconds := RoundToSecond(d) / SECOND;
    if seconds < 1 then 1 else seconds
  }

  /** The header is at least one second and within half a second of the wait (or exactly
      one second), so one second more than advertised is always enough. */
  lemma HeaderIsClose(d: nat)
    requires 0 < d
    ensures 1 <= RetryAfterSeconds(d)
    ensures d <= RetryAfterSeconds(d) * SECOND + SECOND / 2
    ensures RetryAfterSeconds(d) == 1 || RetryAfterSeconds(d) * SECOND <= d + SECOND / 2
    ensures d < (RetryAfterSeconds(d) + 1) * SECOND
  {
    assert d == d / SECOND * SECOND + d % SECOND;
  }

  /** The advertised wait alone is enough exactly when the duration is at most a second,
      a whole number of seconds, or rounded up. */
  lemma HeaderSufficesIff(d: nat)
    requires 0 < d
    ensures d <= RetryAfterSeconds(d) * SECOND
            <==> d <= SECOND || d % SECOND == 0 || SECOND <= 2 * (d % SECOND)
  {
    assert d == d / SECOND * SECOND + d % SECOND;
  }

  /** A wait of 1.4 seconds is advertised as one second, which is too short. */
  lemma HeaderCanBeTooShort()
    ensures RetryAfterSeconds(1_400_000_000) == 1 && RetryAfterSeconds(1_400_000_000) * SECOND < 1_400_000_000
  {}
}
