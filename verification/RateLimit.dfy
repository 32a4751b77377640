/** The in-process fixed-window limiter (internal/ratelimit/fixed_window.go). */
module RateLimit {

  // Instants are nanoseconds since Go's zero time, so the zero time is 0 and a
  // reading of a real clock is positive.
  const ZERO_TIME := 0
  type Instant = t: int | ZERO_TIME < t witness 1

  datatype Entry = Entry(windowStart: int, count: int)
  datatype Decision = Decision(allowed: bool, retryAfter: int, remaining: int)
  datatype Config = Config(limit: int, window: int) {
    predicate Active() { 0 < limit && 0 < window }
  }

  type Entries = map<string, Entry>

  // A missing key reads as Go's zero entry.
  function Lookup(entries: Entries, key: string): Entry {
    if key in entries then entries[key] else Entry(ZERO_TIME, 0)
  }

  // What one call does to the entry of its own key.
  function Advance(cfg: Config, stored: Entry, now: Instant): (Entry, Decision) {
    var current :=
      if stored.windowStart == ZERO_TIME || cfg.window <= now - stored.windowStart
      then Entry(now, 0) else stored;
    if cfg.limit <= current.count then
      var wait := cfg.window - (now - current.windowStart);
      (stored, Decision(false, if wait < 0 then 0 else wait, 0))
    else
      var counted := Entry(current.windowStart, current.count + 1);
      (counted, Decision(true, 0, cfg.limit - counted.count))
  }

  // What one call does to the whole table.
  function Decide(cfg: Config, entries: Entries, key: string, now: Instant): (Entries, Decision) {
    if !cfg.Active() then (entries, Decision(true, 0, 0)) else
    var (entry, decision) := Advance(cfg, Lookup(entries, key), now);
    (if decision.allowed then entries[key := entry] else entries, decision)
  }

  class FixedWindowLimiter {
    const cfg: Config
    var entries: Entries

    constructor (limit: int, window: int)
      ensures cfg == Config(limit, window) && entries == map[]
    {
      cfg := Config(limit, window);
      entries := map[];
    }

    // `now` is read before the lock is taken, so successive calls may see it go back.
    method Allow(key: string, now: Instant) returns (decision: Decision)
      modifies this
      ensures (entries, decision) == Decide(cfg, old(entries), key, now)
    {
      if cfg.limit <= 0 || cfg.window <= 0 {
        return Decision(true, 0, 0);
      }
      var current := if key in entries then entries[key] else Entry(ZERO_TIME, 0);
      if current.windowStart == ZERO_TIME || now - current.windowStart >= cfg.window {
        current := Entry(now, 0);
      }
      if current.count >= cfg.limit {
        var retryAfter := cfg.window - (now - current.windowStart);
        if retryAfter < 0 {
          retryAfter := 0;
        }
        return Decision(false, retryAfter, 0);
      }
      current := current.(count := current.count + 1);
      entries := entries[key := current];
      decision := Decision(true, 0, cfg.limit - current.count);
    }
  }
}
