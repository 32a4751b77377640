/** How stale an answer of the domain cache can be when lookups, database changes and clock
    ticks interleave in any way. */
module Coherence {
  import opened Outcome
  import opened Text
  import opened Schema
  import opened DomainCache

  // A lookup that missed the cache first waits for its database read, then for its write to the cache.
  datatype Lookup = Missed(name: string) | Fetched(name: string, enabled: bool)

  datatype State = State(now: int, domains: map<int, Domain>, entries: Entries, lookups: map<nat, Lookup>,
                         nextLookup: nat)

  datatype Event =
    | Tick(elapsed: nat)
    | Change(domains: map<int, Domain>)   // an admin adds, enables or disables domains
    | Ask(name: string)                   // domainCache.get; a miss starts a lookup
    | Fetch(lookup: nat)                  // IsDomainEnabled
    | FetchFails(lookup: nat)
    | Store(lookup: nat)                  // domainCache.set

  // The table's value for a (lower-case) name.
  predicate Truth(s: State, name: string) {
    DomainEnabled(EMPTY.(domains := s.domains), name)
  }

  predicate Possible(s: State, e: Event) {
    match e
    case Fetch(id) => id in s.lookups && s.lookups[id].Missed?
    case FetchFails(id) => id in s.lookups && s.lookups[id].Missed?
    case Store(id) => id in s.lookups && s.lookups[id].Fetched?
    case _ => true
  }

  function Next(ttl: int, s: State, e: Event): State
    requires Possible(s, e)
  {
    match e
    case Tick(elapsed) => s.(now := s.now + elapsed)
    case Change(domains) => s.(domains := domains)
    case Ask(name) =>
      if Cached(s.entries, name, s.now).Some? then s
      else s.(lookups := s.lookups[s.nextLookup := Missed(name)], nextLookup := s.nextLookup + 1)
    case Fetch(id) =>
      s.(lookups := s.lookups[id := Fetched(s.lookups[id].name, Truth(s, s.lookups[id].name))])
    case FetchFails(id) => s.(lookups := s.lookups - {id})
    case Store(id) =>
      s.(entries := Remember(s.entries, ttl, s.lookups[id].name, s.lookups[id].enabled, s.now),
         lookups := s.lookups - {id})
  }

  // What domainAllowed returns at this event, if it returns.
  datatype Answer = Answer(name: string, enabled: bool)

  function Returned(s: State, e: Event): Option<Answer>
    requires Possible(s, e)
  {
    match e
    case Ask(name) =>
      (match Cached(s.entries, name, s.now) case Some(enabled) => Some(Answer(name, enabled)) case None => None)
    case Store(id) => Some(Answer(s.lookups[id].name, s.lookups[id].enabled))
    case _ => None
  }

  /** With nothing in between, the three steps of a miss are Backend.DomainAllowed: the table's
      value is answered and remembered for ttl. */
  lemma UninterruptedLookup(ttl: int, s: State, name: string)
    requires Cached(s.entries, name, s.now).None?
    ensures var id := s.nextLookup;
            var asked := Next(ttl, s, Ask(name));
            && Possible(asked, Fetch(id)) && Possible(Next(ttl, asked, Fetch(id)), Store(id))
            && Returned(Next(ttl, asked, Fetch(id)), Store(id)) == Some(Answer(name, Truth(s, name)))
            && Next(ttl, Next(ttl, asked, Fetch(id)), Store(id)).entries
               == Remember(s.entries, ttl, name, Truth(s, name), s.now)
  {
    assert Truth(Next(ttl, s, Ask(name)), name) == Truth(s, name);
  }

  // ----- Runs -----

  datatype Run = Run(states: seq<State>, events: seq<Event>)

  ghost predicate Steps(ttl: int, r: Run) {
    && |r.states| == |r.events| + 1
    && (forall i :: 0 <= i < |r.events| ==>
          Possible(r.states[i], r.events[i]) && r.states[i + 1] == Next(ttl, r.states[i], r.events[i]))
  }

  ghost predicate FromStart(ttl: int, r: Run) {
    Steps(ttl, r) && r.states[0].entries == map[] && r.states[0].lookups == map[]
  }

  lemma {:induction false} ClockAdvances(ttl: int, r: Run, i: nat, j: nat)
    requires Steps(ttl, r) && i <= j < |r.states|
    ensures r.states[i].now <= r.states[j].now && r.states[i].nextLookup <= r.states[j].nextLookup
    decreases j
  {
    if i < j {
      assert r.states[j] == Next(ttl, r.states[j - 1], r.events[j - 1]);
      ClockAdvances(ttl, r, i, j - 1);
    }
  }

  // Event j is the database read of lookup `id` for `name`, and it read `enabled`.
  ghost predicate ReadAt(r: Run, j: nat, id: nat, name: string, enabled: bool)
    requires |r.states| == |r.events| + 1
  {
    && j < |r.events| && r.events[j] == Fetch(id)
    && id in r.states[j].lookups && r.states[j].lookups[id] == Missed(name)
    && enabled == Truth(r.states[j], name)
  }

  // Events j and k are the read and the write of one lookup for `name` with this value.
  ghost predicate Backed(r: Run, j: nat, k: nat, name: string, enabled: bool)
    requires |r.states| == |r.events| + 1
  {
    j < k < |r.events| && exists id: nat :: ReadAt(r, j, id, name, enabled) && r.events[k] == Store(id)
  }

  ghost predicate LookupsRead(r: Run, i: nat)
    requires |r.states| == |r.events| + 1 && i < |r.states|
  {
    forall id <- r.states[i].lookups ::
      && id < r.states[i].nextLookup
      && (r.states[i].lookups[id].Fetched? ==>
            exists j: nat :: j < i && ReadAt(r, j, id, r.states[i].lookups[id].name, r.states[i].lookups[id].enabled))
  }

  lemma {:induction false} LookupsAreRead(ttl: int, r: Run, i: nat)
    requires FromStart(ttl, r) && i < |r.states|
    ensures LookupsRead(r, i)
  {
    if i != 0 {
      LookupsAreRead(ttl, r, i - 1);
      var s, e, s' := r.states[i - 1], r.events[i - 1], r.states[i];
      assert s' == Next(ttl, s, e);
      forall id | id in s'.lookups && s'.lookups[id].Fetched?
        ensures exists j: nat :: j < i && ReadAt(r, j, id, s'.lookups[id].name, s'.lookups[id].enabled)
      {
        if e == Fetch(id) {
          assert ReadAt(r, i - 1, id, s'.lookups[id].name, s'.lookups[id].enabled);
        } else {
          assert id in s.lookups && s.lookups[id] == s'.lookups[id];
        }
      }
    }
  }

  ghost predicate EntryBacked(ttl: int, r: Run, i: nat, name: string, entry: Entry)
    requires |r.states| == |r.events| + 1 && i < |r.states|
  {
    exists j: nat, k: nat :: k < i && Backed(r, j, k, name, entry.enabled) && entry.expiresAt == r.states[k].now + ttl
  }

  ghost predicate EntriesBacked(ttl: int, r: Run, i: nat)
    requires |r.states| == |r.events| + 1 && i < |r.states|
  {
    forall name <- r.states[i].entries :: EntryBacked(ttl, r, i, name, r.states[i].entries[name])
  }

  // The entry that event i writes.
  lemma StoreBacksEntry(ttl: int, r: Run, i: nat)
    requires FromStart(ttl, r) && i < |r.events| && r.events[i].Store? && Possible(r.states[i], r.events[i])
    ensures var lookup := r.states[i].lookups[r.events[i].lookup];
            EntryBacked(ttl, r, i + 1, lookup.name, Entry(lookup.enabled, r.states[i].now + ttl))
  {
    var lookup := r.states[i].lookups[r.events[i].lookup];
    var j := StoresAreBacked(ttl, r, i, lookup.name, lookup.enabled);
    assert Backed(r, j, i, lookup.name, lookup.enabled);
  }

  lemma EntryStaysBacked(ttl: int, r: Run, i: nat, name: string, entry: Entry)
    requires |r.states| == |r.events| + 1 && i + 1 < |r.states| && EntryBacked(ttl, r, i, name, entry)
    ensures EntryBacked(ttl, r, i + 1, name, entry)
  {}

  lemma {:induction false} EntriesAreBacked(ttl: int, r: Run, i: nat)
    requires FromStart(ttl, r) && i < |r.states|
    ensures EntriesBacked(ttl, r, i)
  {
    if i != 0 {
      EntriesAreBacked(ttl, r, i - 1);
      var s, e, s' := r.states[i - 1], r.events[i - 1], r.states[i];
      assert s' == Next(ttl, s, e);
      forall name | name in s'.entries ensures EntryBacked(ttl, r, i, name, s'.entries[name]) {
        if e.Store? && s.lookups[e.lookup].name == name {
          StoreBacksEntry(ttl, r, i - 1);
        } else {
          EntryStaysBacked(ttl, r, i - 1, name, s.entries[name]);
        }
      }
    }
  }

  lemma HitsAreBacked(ttl: int, r: Run, i: nat, name: string, enabled: bool) returns (j: nat, k: nat)
    requires FromStart(ttl, r) && i < |r.events| && r.events[i] == Ask(name)
    requires Cached(r.states[i].entries, name, r.states[i].now) == Some(enabled)
    ensures k < i && Backed(r, j, k, name, enabled) && r.states[i].now < r.states[k].now + ttl
  {
    EntriesAreBacked(ttl, r, i);
    assert EntryBacked(ttl, r, i, name, r.states[i].entries[name]);
    j, k :| k < i && Backed(r, j, k, name, enabled)
            && r.states[i].entries[name].expiresAt == r.states[k].now + ttl;
  }

  lemma StoresAreBacked(ttl: int, r: Run, i: nat, name: string, enabled: bool) returns (j: nat)
    requires FromStart(ttl, r) && i < |r.events| && r.events[i].Store?
    requires Possible(r.states[i], r.events[i])
    requires r.states[i].lookups[r.events[i].lookup] == Fetched(name, enabled)
    ensures Backed(r, j, i, name, enabled)
  {
    LookupsAreRead(ttl, r, i);
    var id := r.events[i].lookup;
    j :| j < i && ReadAt(r, j, id, name, enabled);
  }

  /** Bounded staleness: every answer is what the table said when some lookup read it, at
      event j, and that lookup wrote it to the cache at event k, less than ttl before the answer
      (or it is that lookup's own answer). So the answer is older than the table by less than
      ttl plus that lookup's delay between its read and its write. */
  lemma AnswersAreRecent(ttl: int, r: Run, i: nat, name: string, enabled: bool) returns (j: nat, k: nat)
    requires FromStart(ttl, r) && 0 < ttl && i < |r.events|
    requires Possible(r.states[i], r.events[i]) && Returned(r.states[i], r.events[i]) == Some(Answer(name, enabled))
    ensures j < k <= i && Backed(r, j, k, name, enabled) && enabled == Truth(r.states[j], name)
    ensures r.states[j].now <= r.states[k].now <= r.states[i].now < r.states[k].now + ttl
    ensures r.states[i].now - r.states[j].now < ttl + (r.states[k].now - r.states[j].now)
  {
    if r.events[i].Ask? {
      j, k := HitsAreBacked(ttl, r, i, name, enabled);
    } else {
      j := StoresAreBacked(ttl, r, i, name, enabled);
      k := i;
    }
    ClockAdvances(ttl, r, j, k);
    ClockAdvances(ttl, r, k, i);
  }

  // Every lookup writes at most `delay` after it read.
  ghost predicate Prompt(r: Run, delay: int)
    requires |r.states| == |r.events| + 1
  {
    forall j: nat, k: nat, name, enabled :: Backed(r, j, k, name, enabled) ==>
      r.states[k].now - r.states[j].now <= delay
  }

  /** If lookups take at most `delay`, a change made by event m shows in every answer from ttl + delay
      after it, as long as it has not been undone for `name`. */
  lemma ChangesTakeEffect(ttl: int, r: Run, delay: int, m: nat, i: nat, name: string, enabled: bool)
    requires FromStart(ttl, r) && 0 < ttl && Prompt(r, delay) && m < |r.states| && i < |r.events|
    requires Possible(r.states[i], r.events[i]) && Returned(r.states[i], r.events[i]) == Some(Answer(name, enabled))
    requires forall l :: m <= l <= i ==> Truth(r.states[l], name) == Truth(r.states[m], name)
    requires r.states[m].now + ttl + delay <= r.states[i].now
    ensures enabled == Truth(r.states[m], name)
  {
    var j, k := AnswersAreRecent(ttl, r, i, name, enabled);
    if j < m {
      ClockAdvances(ttl, r, j, m);
    }
  }

  // ----- When is the time to live alone enough? -----

  // A lookup for `name` holds `enabled`, read and not yet written.
  ghost predicate InFlight(s: State, name: string, enabled: bool) {
    exists id <- s.lookups :: s.lookups[id] == Fetched(name, enabled)
  }

  // No entry outlives ttl.
  ghost predicate Bounded(ttl: int, s: State) {
    forall name <- s.entries :: s.entries[name].expiresAt <= s.now + ttl
  }

  lemma {:induction false} EntriesAreBounded(ttl: int, r: Run, i: nat)
    requires FromStart(ttl, r) && i < |r.states|
    ensures Bounded(ttl, r.states[i])
  {
    if i != 0 {
      EntriesAreBounded(ttl, r, i - 1);
      assert r.states[i] == Next(ttl, r.states[i - 1], r.events[i - 1]);
    }
  }

  // From state 0 on, the table's value for `name` stays.
  ghost predicate Settled(r: Run, name: string) {
    forall l :: 0 <= l < |r.states| ==> Truth(r.states[l], name) == Truth(r.states[0], name)
  }

  // Event i answers for `name` against the table, ttl or more after the start of the run.
  ghost predicate StaleAnswer(ttl: int, r: Run, i: nat, name: string)
    requires Steps(ttl, r)
  {
    && i < |r.events| && r.states[0].now + ttl <= r.states[i].now
    && Returned(r.states[i], r.events[i]) == Some(Answer(name, !Truth(r.states[0], name)))
  }

  lemma {:induction false} OldValueDiesOut(ttl: int, r: Run, name: string, i: nat)
    requires Steps(ttl, r) && Bounded(ttl, r.states[0]) && Settled(r, name) && i < |r.states|
    requires !InFlight(r.states[0], name, !Truth(r.states[0], name))
    ensures !InFlight(r.states[i], name, !Truth(r.states[0], name))
    ensures name in r.states[i].entries && r.states[i].entries[name].enabled != Truth(r.states[0], name)
            ==> r.states[i].entries[name].expiresAt <= r.states[0].now + ttl
  {
    if i != 0 {
      OldValueDiesOut(ttl, r, name, i - 1);
      var s, e, s' := r.states[i - 1], r.events[i - 1], r.states[i];
      assert s' == Next(ttl, s, e);
      assert Truth(s, name) == Truth(r.states[0], name);
      forall id | id in s'.lookups ensures s'.lookups[id] != Fetched(name, !Truth(r.states[0], name)) {
        if id in s.lookups {
          assert s.lookups[id] != Fetched(name, !Truth(r.states[0], name));
        }
      }
      if e.Store? {
        assert s.lookups[e.lookup] != Fetched(name, !Truth(r.states[0], name));
      }
    }
  }

  // The shortest run to a stale answer: wait for ttl, then let the slow lookup finish.
  function SlowFinish(ttl: nat, s: State, id: nat): Run
    requires id in s.lookups && s.lookups[id].Fetched?
  {
    var waited := Next(ttl, s, Tick(ttl));
    Run([s, waited, Next(ttl, waited, Store(id))], [Tick(ttl), Store(id)])
  }

  /** The documented bound, that a change takes effect within ttl, holds from a state on exactly
      when no lookup in flight holds the old value: some continuation without further change
      answers wrongly ttl or more later if and only if there is such a lookup. */
  lemma StaleBeyondTtlIff(ttl: nat, s: State, name: string)
    requires Bounded(ttl, s)
    ensures (exists r: Run, i: nat ::
               Steps(ttl, r) && r.states[0] == s && Settled(r, name) && StaleAnswer(ttl, r, i, name))
            <==> InFlight(s, name, !Truth(s, name))
  {
    if InFlight(s, name, !Truth(s, name)) {
      var id :| id in s.lookups && s.lookups[id] == Fetched(name, !Truth(s, name));
      var r := SlowFinish(ttl, s, id);
      assert Steps(ttl, r) && r.states[0] == s && Settled(r, name) && StaleAnswer(ttl, r, 1, name);
    } else {
      forall r: Run, i: nat | Steps(ttl, r) && r.states[0] == s && Settled(r, name) && i < |r.events|
        ensures !StaleAnswer(ttl, r, i, name)
      {
        OldValueDiesOut(ttl, r, name, i);
      }
    }
  }

  lemma TruthOfOne(s: State, domain: Domain)
    requires s.domains == map[1 := domain] && Trim(domain.name) == domain.name
    ensures Truth(s, domain.name) == domain.enabled
  {
    assert EMPTY.(domains := s.domains).domains[1] == domain;
  }

  // One lookup reads the domain as enabled, it is disabled, and a second lookup starts.
  function Overlap(domain: Domain): seq<State> {
    var on, off := map[1 := domain], map[1 := domain.(enabled := false)];
    var first, second := Fetched(domain.name, true), Fetched(domain.name, false);
    [State(0, on, map[], map[], 0),
     State(0, on, map[], map[0 := Missed(domain.name)], 1),
     State(0, on, map[], map[0 := first], 1),
     State(0, off, map[], map[0 := first], 1),
     State(0, off, map[], map[0 := first, 1 := Missed(domain.name)], 2),
     State(0, off, map[], map[0 := first, 1 := second], 2)]
  }

  lemma OverlapSteps(ttl: nat, domain: Domain)
    requires domain.enabled && Trim(domain.name) == domain.name
    ensures Steps(ttl, Run(Overlap(domain), [Ask(domain.name), Fetch(0), Change(map[1 := domain.(enabled := false)]),
                                             Ask(domain.name), Fetch(1)]))
  {
    var s := Overlap(domain);
    TruthOfOne(s[1], domain);
    TruthOfOne(s[4], domain.(enabled := false));
    assert s[1] == Next(ttl, s[0], Ask(domain.name));
    assert s[2] == Next(ttl, s[1], Fetch(0));
    assert s[4] == Next(ttl, s[3], Ask(domain.name));
    assert s[5] == Next(ttl, s[4], Fetch(1));
  }

  /** A slow lookup can put an older value over a fresher entry: when the second lookup of the
      overlap writes first, the domain is cached as disabled and then as enabled again, while
      the table says disabled throughout. */
  lemma SlowLookupOverwrites(ttl: nat, domain: Domain)
    requires domain.enabled && Trim(domain.name) == domain.name
    ensures var s := Overlap(domain)[5];
            && Possible(s, Store(1)) && Possible(Next(ttl, s, Store(1)), Store(0))
            && Next(ttl, s, Store(1)).entries == map[domain.name := Entry(false, ttl)]
            && Next(ttl, Next(ttl, s, Store(1)), Store(0)).entries == map[domain.name := Entry(true, ttl)]
            && !Truth(s, domain.name)
  {
    TruthOfOne(Overlap(domain)[5], domain.(enabled := false));
  }

  /** The time to live is not enough: when the first lookup of the overlap writes ttl after the domain
      was disabled, it still answers that mail is accepted. */
  lemma LateAnswerIsStale(ttl: nat, domain: Domain)
    requires domain.enabled && Trim(domain.name) == domain.name
    ensures 0 in Overlap(domain)[5].lookups && Overlap(domain)[5].lookups[0] == Fetched(domain.name, true)
    ensures Steps(ttl, SlowFinish(ttl, Overlap(domain)[5], 0))
    ensures Settled(SlowFinish(ttl, Overlap(domain)[5], 0), domain.name)
    ensures !Truth(Overlap(domain)[5], domain.name)
    ensures StaleAnswer(ttl, SlowFinish(ttl, Overlap(domain)[5], 0), 1, domain.name)
  {
    TruthOfOne(Overlap(domain)[5], domain.(enabled := false));
  }
}
