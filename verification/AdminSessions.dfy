/** The in-memory admin sessions (adminSessionStore in internal/web/admin.go). */
module AdminSessions {
  import opened Clock

  const ADMIN_SESSION_TTL := 3_600 * SECOND

  type Sessions = map<string, int>

  // One validate call: the expiry is compared at `now` and slid at `slidAt`.
  function Checked(sessions: Sessions, token: string, now: int, slidAt: int): (Sessions, bool) {
    if token !in sessions then (sessions, false)
    else if sessions[token] <= now then (sessions - {token}, false)
    else (sessions[token := slidAt + ADMIN_SESSION_TTL], true)
  }

  class AdminSessionStore {
    var sessions: Sessions

    constructor ()
      ensures sessions == map[]
    {
      sessions := map[];
    }

    method Create(token: string, expiresAt: int)
      modifies this
      ensures sessions == old(sessions)[token := expiresAt]
    {
      sessions := sessions[token := expiresAt];
    }

    method Validate(token: string, now: int, slidAt: int) returns (ok: bool)
      modifies this
      ensures (sessions, ok) == Checked(old(sessions), token, now, slidAt)
    {
      if token !in sessions {
        return false;
      }
      if !(sessions[token] > now) {
        sessions := sessions - {token};
        return false;
      }
      sessions := sessions[token := slidAt + ADMIN_SESSION_TTL];
      return true;
    }

    method Delete(token: string)
      modifies this
      ensures sessions == old(sessions) - {token}
    {
      sessions := sessions - {token};
    }
  }

  // ----- Runs, in lock order -----

  datatype Event =
    | Create(token: string, expiresAt: int)
    | Validate(token: string, now: int, slidAt: int)
    | Delete(token: string)

  function Step(sessions: Sessions, e: Event): Sessions {
    match e
    case Create(token, expiresAt) => sessions[token := expiresAt]
    case Validate(token, now, slidAt) => Checked(sessions, token, now, slidAt).0
    case Delete(token) => sessions - {token}
  }

  function Run(sessions: Sessions, events: seq<Event>): Sessions {
    if events == [] then sessions else Step(Run(sessions, events[..|events| - 1]), events[|events| - 1])
  }

  // The answer of event i of the run from no sessions.
  function Answer(events: seq<Event>, i: nat): bool
    requires i < |events| && events[i].Validate?
  {
    Checked(Run(map[], events[..i]), events[i].token, events[i].now, events[i].slidAt).1
  }

  // The clock never goes back between the validate calls, read under the lock.
  ghost predicate Ordered(events: seq<Event>) {
    && (forall i :: 0 <= i < |events| && events[i].Validate? ==> events[i].now <= events[i].slidAt)
    && (forall i, j :: 0 <= i < j < |events| && events[i].Validate? && events[j].Validate? ==>
          events[i].slidAt <= events[j].now)
  }

  // Event i sets the expiry of `token` to `expiry`: a create, or a validate that succeeded, which sets it an
  // hour ahead.
  ghost predicate Sets(events: seq<Event>, i: nat, token: string, expiry: int) {
    && i < |events| && events[i].token == token
    && (events[i].Create? ==> expiry == events[i].expiresAt)
    && (events[i].Validate? ==> Answer(events, i) && expiry == events[i].slidAt + 3_600_000_000_000)
    && !events[i].Delete?
  }

  // The last create, delete or successful validate of `token` before event n is event i, and it
  // left the expiry `expiry`.
  ghost predicate LastSet(events: seq<Event>, n: nat, i: nat, token: string, expiry: int)
    requires n <= |events|
  {
    && i < n && Sets(events, i, token, expiry)
    && forall j :: i < j < n && events[j].token == token ==> events[j].Validate? && !Answer(events, j)
  }

  lemma PrefixRun(events: seq<Event>, n: nat)
    requires n < |events|
    ensures Run(map[], events[..n + 1]) == Step(Run(map[], events[..n]), events[n])
  {
    assert events[..n + 1][..n] == events[..n];
  }

  // An entry is what the last setting event left.
  lemma {:induction false} EntriesFromHistory(events: seq<Event>, n: nat, token: string)
    requires n <= |events|
    ensures token in Run(map[], events[..n]) ==>
              exists i: nat :: LastSet(events, n, i, token, Run(map[], events[..n])[token])
    decreases n
  {
    if n != 0 {
      var before, e := Run(map[], events[..n - 1]), events[n - 1];
      PrefixRun(events, n - 1);
      EntriesFromHistory(events, n - 1, token);
      var after := Run(map[], events[..n]);
      if token in after {
        if e.token == token {
          assert LastSet(events, n, n - 1, token, after[token]);
        } else {
          var i: nat :| LastSet(events, n - 1, i, token, before[token]);
          assert LastSet(events, n, i, token, after[token]);
        }
      }
    }
  }

  // A token that was set and is gone was found expired since.
  lemma {:induction false} GoneMeansExpired(events: seq<Event>, n: nat, i: nat, token: string, expiry: int)
    requires n <= |events| && LastSet(events, n, i, token, expiry)
    ensures var sessions := Run(map[], events[..n]);
            if token in sessions then sessions[token] == expiry
            else exists j :: i < j < n && events[j].Validate? && events[j].token == token && expiry <= events[j].now
    decreases n
  {
    var before, e := Run(map[], events[..n - 1]), events[n - 1];
    PrefixRun(events, n - 1);
    if i < n - 1 {
      GoneMeansExpired(events, n - 1, i, token, expiry);
      if e.token == token && token in before {
        assert events[n - 1].Validate? && expiry <= events[n - 1].now;
      }
    }
  }

  /** validate succeeds exactly when the last create or successful validate of the token set an
      expiry after now and no delete followed. (Failed validates, which may drop the entry, make
      no difference.) */
  lemma ValidIff(events: seq<Event>, n: nat)
    requires Ordered(events) && n < |events| && events[n].Validate?
    ensures Answer(events, n)
       <==> exists i: nat, expiry :: LastSet(events, n, i, events[n].token, expiry) && events[n].now < expiry
  {
    var token := events[n].token;
    EntriesFromHistory(events, n, token);
    forall i: nat, expiry | LastSet(events, n, i, token, expiry) && events[n].now < expiry ensures Answer(events, n) {
      GoneMeansExpired(events, n, i, token, expiry);
    }
  }

  // ----- Dropping expired entries early -----

  // validate without the eager removal.
  function LazyStep(sessions: Sessions, e: Event): Sessions {
    if e.Validate? && e.token in sessions && sessions[e.token] <= e.now then sessions else Step(sessions, e)
  }

  function LazyRun(sessions: Sessions, events: seq<Event>): Sessions {
    if events == [] then sessions else LazyStep(LazyRun(sessions, events[..|events| - 1]), events[|events| - 1])
  }

  lemma {:induction false} LazyAgrees(events: seq<Event>, n: nat, token: string, now: int)
    requires Ordered(events) && n <= |events|
    requires forall j :: 0 <= j < n && events[j].Validate? ==> events[j].slidAt <= now
    ensures var eager, delayed := Run(map[], events[..n]), LazyRun(map[], events[..n]);
            (token in eager && now < eager[token]) <==> (token in delayed && now < delayed[token])
    ensures forall t <- Run(map[], events[..n]) ::
              t in LazyRun(map[], events[..n]) && LazyRun(map[], events[..n])[t] == Run(map[], events[..n])[t]
    ensures token in LazyRun(map[], events[..n]) && token !in Run(map[], events[..n]) ==>
              LazyRun(map[], events[..n])[token] <= now
    decreases n
  {
    if n != 0 {
      PrefixRun(events, n - 1);
      assert events[..n][..n - 1] == events[..n - 1];
      LazyAgrees(events, n - 1, token, now);
      var e := events[n - 1];
      if e.Validate? {
        LazyAgrees(events, n - 1, e.token, e.now);
      }
    }
  }

  /** Dropping an entry as soon as it is found expired changes no later answer. */
  lemma EagerRemovalIsInvisible(events: seq<Event>, n: nat)
    requires Ordered(events) && n < |events| && events[n].Validate?
    ensures Answer(events, n)
         == Checked(LazyRun(map[], events[..n]), events[n].token, events[n].now, events[n].slidAt).1
  {
    LazyAgrees(events, n, events[n].token, events[n].now);
  }

  /** Tokens do not affect each other. */
  lemma OtherTokensUnaffected(sessions: Sessions, e: Event, token: string)
    requires e.token != token
    ensures token in Step(sessions, e) <==> token in sessions
    ensures token in sessions ==> Step(sessions, e)[token] == sessions[token]
  {}
}
