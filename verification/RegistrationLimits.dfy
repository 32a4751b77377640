/** Registration behind the rate limiter, over whole runs of attempts. */
module RegistrationLimits {
  import opened Clock
  import opened Schema
  import opened StoreRuns
  import opened Registration
  import opened RateLimit
  import opened RateLimitTraces

  lemma ProvisionKeepsConsistent(db: Db, a: Attempt, seed: string)
    requires Consistent(db)
    ensures Consistent(Provision(db, a.requested, seed, a.localPart, a.token, a.hash, a.now).0)
  {
    var address := Address(a.localPart, ResolveDomain(db, a.requested, seed));
    InsertInboxKeepsConsistent(db, address, a.localPart, a.token, a.hash, NEVER_EXPIRES, a.now);
  }

  // The results of a run of attempts.
  function Results(cfg: Config, entries: Entries, db: Db, seed: string, attempts: seq<Attempt>): (r: seq<Created>)
    requires Consistent(db)
    ensures |r| == |attempts|
    decreases |attempts|
  {
    if attempts == [] then [] else
    ProvisionKeepsConsistent(db, attempts[0], seed);
    var (entries', db', created) := Register(cfg, entries, db, seed, attempts[0]);
    [created] + Results(cfg, entries', db', seed, attempts[1..])
  }

  function CallsOf(attempts: seq<Attempt>): seq<Call> {
    seq(|attempts|, i requires 0 <= i < |attempts| => Call(attempts[i].client, attempts[i].reading))
  }

  lemma Together(results: seq<Created>, decisions: seq<Decision>)
    requires |results| == |decisions| != 0 && (results[0].RateLimited? <==> !decisions[0].allowed)
    requires forall i :: 0 <= i < |results[1..]| ==> (results[1..][i].RateLimited? <==> !decisions[1..][i].allowed)
    ensures forall i :: 0 <= i < |results| ==> (results[i].RateLimited? <==> !decisions[i].allowed)
  {
    forall i | 1 <= i < |results| ensures results[i].RateLimited? <==> !decisions[i].allowed {
      assert results[i] == results[1..][i - 1] && decisions[i] == decisions[1..][i - 1];
    }
  }

  lemma FirstResult(cfg: Config, entries: Entries, db: Db, seed: string, a: Attempt)
    requires Keyed(db)
    ensures Register(cfg, entries, db, seed, a).0 == Decide(cfg, entries, a.client, a.reading).0
    ensures Register(cfg, entries, db, seed, a).2.RateLimited?
       <==> !Decide(cfg, entries, a.client, a.reading).1.allowed
  {}

  // An attempt is turned away for its rate exactly when the limiter says so.
  lemma {:induction false} LimiterDecides(cfg: Config, entries: Entries, db: Db, seed: string, attempts: seq<Attempt>)
    requires Consistent(db)
    ensures forall i :: 0 <= i < |attempts| ==>
              (Results(cfg, entries, db, seed, attempts)[i].RateLimited?
               <==> !Run(cfg, entries, CallsOf(attempts)).1[i].allowed)
    decreases |attempts|
  {
    if attempts != [] {
      ProvisionKeepsConsistent(db, attempts[0], seed);
      var (entries', db', created) := Register(cfg, entries, db, seed, attempts[0]);
      FirstResult(cfg, entries, db, seed, attempts[0]);
      LimiterDecides(cfg, entries', db', seed, attempts[1..]);
      var calls := CallsOf(attempts);
      assert calls[1..] == CallsOf(attempts[1..]);
      assert Run(cfg, entries, calls).1[1..] == Run(cfg, entries', calls[1..]).1;
      assert Results(cfg, entries, db, seed, attempts)[1..] == Results(cfg, entries', db', seed, attempts[1..]);
      Together(Results(cfg, entries, db, seed, attempts), Run(cfg, entries, calls).1);
    }
  }

  /** With the limit set to 0 (or below) no run of attempts is ever turned away for its rate. */
  lemma {:induction false} NoLimitNoRefusal(cfg: Config, entries: Entries, db: Db, seed: string, attempts: seq<Attempt>)
    requires Consistent(db) && cfg.limit <= 0
    ensures forall i :: 0 <= i < |attempts| ==> !Results(cfg, entries, db, seed, attempts)[i].RateLimited?
  {
    LimiterDecides(cfg, entries, db, seed, attempts);
    InactiveAllowsAll(cfg, entries, CallsOf(attempts));
  }

  /** An attempt turned away tells the exact wait: the store is as before, and the client's later attempts are
      turned away, whatever others do, until the first that reads `wait` or more later. */
  lemma {:induction false} RefusalTellsTheWait(cfg: Config, entries: Entries, db: Db, seed: string, a: Attempt,
                                               later: seq<Attempt>, i: nat)
    requires Consistent(db) && cfg.Active() && WellFormed(cfg, entries)
    requires Register(cfg, entries, db, seed, a).2.RateLimited?
    requires i < |later| && later[i].client == a.client
    requires forall j :: 0 <= j < i && later[j].client == a.client ==>
               later[j].reading < a.reading + Register(cfg, entries, db, seed, a).2.retryAfter
    ensures 0 < Register(cfg, entries, db, seed, a).2.retryAfter && Register(cfg, entries, db, seed, a).1 == db
    ensures Results(cfg, Register(cfg, entries, db, seed, a).0, db, seed, later)[i].RateLimited?
       <==> later[i].reading < a.reading + Register(cfg, entries, db, seed, a).2.retryAfter
  {
    FirstResult(cfg, entries, db, seed, a);
    DenialNamesWindowEnd(cfg, entries, a.client, a.reading);
    LimiterDecides(cfg, entries, db, seed, later);
    DeniedUntilWindowEnds(cfg, entries, a.client, CallsOf(later), i);
  }

  // Attempts of a client with a reading in [lo, hi) that were not turned away for their rate.
  function LetThrough(attempts: seq<Attempt>, results: seq<Created>, client: string, lo: int, hi: int): nat
    requires |results| == |attempts|
  {
    if attempts == [] then 0
    else (if attempts[0].client == client && lo <= attempts[0].reading < hi && !results[0].RateLimited? then 1 else 0)
         + LetThrough(attempts[1..], results[1..], client, lo, hi)
  }

  lemma {:induction false} LetThroughIsAllowed(attempts: seq<Attempt>, results: seq<Created>, decisions: seq<Decision>,
                                               client: string, lo: int, hi: int)
    requires |results| == |attempts| == |decisions|
    requires forall i :: 0 <= i < |attempts| ==> (results[i].RateLimited? <==> !decisions[i].allowed)
    ensures LetThrough(attempts, results, client, lo, hi)
         == AllowedCalls(CallsOf(attempts), decisions, client, lo, hi)
  {
    if attempts != [] {
      assert CallsOf(attempts)[1..] == CallsOf(attempts[1..]);
      LetThroughIsAllowed(attempts[1..], results[1..], decisions[1..], client, lo, hi);
    }
  }

  /** With a limit, no client gets (k + 1) * limit attempts through in k windows, whatever else goes on. */
  lemma RegistrationsAreLimited(cfg: Config, db: Db, seed: string, attempts: seq<Attempt>, client: string, lo: int,
                                k: nat)
    requires Consistent(db) && cfg.Active() && (Skewed(CallsOf(attempts), 1) || cfg.limit == 1)
    ensures LetThrough(attempts, Results(cfg, map[], db, seed, attempts), client, lo, lo + k * cfg.window)
          < (k + 1) * cfg.limit
  {
    LimiterDecides(cfg, map[], db, seed, attempts);
    LetThroughIsAllowed(attempts, Results(cfg, map[], db, seed, attempts), Run(cfg, map[], CallsOf(attempts)).1,
                        client, lo, lo + k * cfg.window);
    SlidingWindowBound(cfg, CallsOf(attempts), client, lo, k);
  }
}
