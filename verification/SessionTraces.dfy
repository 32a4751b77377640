/** When a session token opens a mailbox: the sliding expiry of internal/web/middleware.go over
    every run of logins, requests, logouts, cleanups and other operations on the store. */
module SessionTraces {
  import opened Outcome
  import opened Clock
  import opened Schema
  import opened StoreRuns
  import opened Ordering
  import opened Queries
  import opened Mailbox
  import opened Repository

  predicate OnSessions(op: Op) {
    op.CreateSession? || op.DeleteSession? || op.TouchSession? || op.DeleteExpiredSessions?
  }

  // What goes on in the store besides its sessions.
  type OtherOp = op: Op | !OnSessions(op) witness SetSetting("", "")

  // Each event is one atomic step. A visit looks its session up at `now` and slides it at `slidAt`.
  datatype Event =
    | Login(token: string, inboxId: int, now: int)
    | Visit(token: string, request: Request, now: int, slidAt: int)
    | Peek(token: string, now: int)
    | Logout(token: string)
    | SessionCleanup(now: int)
    | Other(op: OtherOp)

  datatype Reply = Started(ok: bool) | Page(response: Response) | Known(inbox: Option<Inbox>) | Done

  // startSession: a fresh token that lives for `days`.
  function Start(db: Db, token: string, inboxId: int, now: int, days: nat): (Db, Result<()>) {
    InsertSession(db, token, inboxId, now + days * DAY, now)
  }

  function Handle(db: Db, event: Event, days: nat): (Db, Reply)
    requires Consistent(db)
  {
    match event
    case Login(token, inboxId, now) =>
      var (after, result) := Start(db, token, inboxId, now, days);
      (after, Started(result.Ok?))
    case Visit(token, request, now, slidAt) =>
      var (after, response) := Authenticated(db, token, request, now, slidAt, days * DAY);
      (after, Page(response))
    case Peek(token, now) =>
      (db, Known(match FindSession(db, token, now) case Ok((_, inbox)) => Some(inbox) case Err(_) => None))
    case Logout(token) => (RemoveSession(db, token).0, Done)
    case SessionCleanup(now) => (RemoveExpiredSessions(db, now), Done)
    case Other(op) => (Apply(db, op), Done)
  }

  // startSession in internal/web/auth_handlers.go
  method StartSession(repo: SQLite, token: string, inboxId: int, now: int, days: nat) returns (result: Result<()>)
    requires repo.Valid()
    modifies repo
    ensures repo.Valid() && (repo.db, result) == Start(old(repo.db), token, inboxId, now, days)
    ensures result.Ok? <==> token !in old(repo.db).sessions && inboxId in old(repo.db).inboxes
    ensures result.Ok? ==>
              repo.db == old(repo.db).(sessions := old(repo.db).sessions[token :=
                           Session(token, inboxId, Unix(now), Unix(now) + days * 86_400)])
  {
    UnixAfterDays(now, days);
    result := repo.CreateSession(token, inboxId, now + days * DAY, now);
  }

  // HandleLogout: a request without the cookie has the empty token.
  method HandleLogout(repo: SQLite, token: string) returns (response: Response)
    requires repo.Valid()
    modifies repo
    ensures repo.Valid() && response == Redirect("/")
    ensures repo.db == if token == "" then old(repo.db) else Handle(old(repo.db), Logout(token), 0).0
    ensures token != "" ==> repo.db == old(repo.db).(sessions := old(repo.db).sessions - {token})
  {
    if token != "" {
      var _ := repo.DeleteSession(token);
    }
    response := Redirect("/");
  }

  /** What each event is answered, in terms of the tables. */
  lemma EventReplies(db: Db, event: Event, days: nat)
    requires Consistent(db)
    ensures event.Login? ==>
              Handle(db, event, days).1 == Started(event.token !in db.sessions && event.inboxId in db.inboxes)
    ensures event.Peek? ==>
              Handle(db, event, days)
              == (db, Known(if event.token in db.sessions && Unix(event.now) < db.sessions[event.token].expiresAt
                            then Some(db.inboxes[db.sessions[event.token].inboxId]) else None))
    ensures event.Visit? ==>
              Handle(db, event, days).1
              == Page(Authenticated(db, event.token, event.request, event.now, event.slidAt, days * DAY).1)
  {}

  lemma HandleKeepsConsistent(db: Db, event: Event, days: nat)
    requires Consistent(db)
    ensures Consistent(Handle(db, event, days).0)
  {
    match event
    case Login(token, inboxId, now) => InsertSessionKeepsConsistent(db, token, inboxId, now + days * DAY, now);
    case Visit(token, request, now, slidAt) => RequestKeepsConsistent(db, token, request, now, slidAt, days * DAY);
    case Peek(_, _) =>
    case Logout(token) => RemoveSessionKeepsConsistent(db, token);
    case SessionCleanup(now) => RemoveExpiredSessionsKeepsConsistent(db, now);
    case Other(op) => StepKeepsConsistent(db, op);
  }

  function Run(db: Db, events: seq<Event>, days: nat): (r: Db)
    requires Consistent(db)
    ensures Consistent(r)
    decreases |events|
  {
    if events == [] then db else
    HandleKeepsConsistent(db, events[0], days);
    Run(Handle(db, events[0], days).0, events[1..], days)
  }

  // ----- The clock and the tokens -----

  function Begins(event: Event, clock: int): int {
    match event
    case Login(_, _, now) => now
    case Visit(_, _, now, _) => now
    case Peek(_, now) => now
    case SessionCleanup(now) => now
    case _ => clock
  }

  function Ends(event: Event, clock: int): int {
    if event.Visit? then event.slidAt else Begins(event, clock)
  }

  // The clock never goes back, starting from `clock`; the result is its last reading.
  ghost predicate Timely(events: seq<Event>, clock: int) {
    events == [] || (clock <= Begins(events[0], clock) <= Ends(events[0], clock)
                     && Timely(events[1..], Ends(events[0], clock)))
  }

  function LastReading(events: seq<Event>, clock: int): int {
    if events == [] then clock else LastReading(events[1..], Ends(events[0], clock))
  }

  predicate LogsIn(event: Event, token: string) { event.Login? && event.token == token }

  // No two logins get the same token (auth.NewSessionToken mints a new UUID each time).
  ghost predicate FreshTokens(events: seq<Event>) {
    forall i, j :: 0 <= i < j < |events| && events[i].Login? ==> !LogsIn(events[j], events[i].token)
  }

  // ----- What the history says about a token -----

  datatype Life = Never | Live(inboxId: int, lastSeen: int) | LoggedOut

  // Within the session's time to live, counted in whole seconds from the last sign of life.
  predicate WithinTtl(life: Life, now: int, days: nat)
    requires life.Live?
  {
    Unix(now) - Unix(life.lastSeen) < days * 86_400
  }

  predicate Opens(life: Life, db: Db, now: int, days: nat) {
    life.Live? && life.inboxId in db.inboxes && WithinTtl(life, now, days)
  }

  // Only logins, visits that get in, and logouts matter; `db` is used for its inboxes alone.
  function NextLife(life: Life, db: Db, event: Event, token: string, days: nat): Life {
    match event
    case Login(t, inboxId, now) =>
      if t == token && life.Never? && inboxId in db.inboxes then Live(inboxId, now) else life
    case Visit(t, _, now, slidAt) =>
      if t == token && Opens(life, db, now, days) then Live(life.inboxId, slidAt) else life
    case Logout(t) => if t == token && life.Live? then LoggedOut else life
    case _ => life
  }

  function LifeAfter(life: Life, db: Db, events: seq<Event>, token: string, days: nat): Life
    requires Consistent(db)
    decreases |events|
  {
    if events == [] then life else
    HandleKeepsConsistent(db, events[0], days);
    LifeAfter(NextLife(life, db, events[0], token, days), Handle(db, events[0], days).0, events[1..], token, days)
  }

  // ----- The sessions table agrees with the history -----

  // A live token's row is there with the right expiry, unless the cascade or a cleanup that
  // came too late for it anyway has removed it.
  ghost predicate Tracks(db: Db, token: string, life: Life, clock: int, days: nat) {
    match life
    case Live(inboxId, lastSeen) =>
      && inboxId < db.nextInbox
      && if token in db.sessions
         then db.sessions[token].inboxId == inboxId && db.sessions[token].expiresAt == Unix(lastSeen) + days * 86_400
         else inboxId !in db.inboxes || !WithinTtl(life, clock, days)
    case _ => token !in db.sessions
  }

  lemma TrackingAnswers(db: Db, token: string, life: Life, clock: int, now: int, days: nat)
    requires Consistent(db) && Tracks(db, token, life, clock, days) && clock <= now
    ensures FindSession(db, token, now).Ok? <==> Opens(life, db, now, days)
    ensures FindSession(db, token, now).Ok? ==> FindSession(db, token, now).value.1 == db.inboxes[life.inboxId]
  {
    UnixMonotone(clock, now);
  }

  lemma ServeLeavesAccounts(db: Db, inbox: Inbox, request: Request)
    requires Keyed(db)
    ensures Serve(db, inbox, request).0.sessions == db.sessions
    ensures Serve(db, inbox, request).0.inboxes == db.inboxes
    ensures Serve(db, inbox, request).0.nextInbox == db.nextInbox
  {}

  // A visit moves the expiry of its own session, if it gets in, and nothing else of the accounts.
  lemma VisitMovesOneExpiry(db: Db, token: string, request: Request, now: int, slidAt: int, ttl: int)
    requires Consistent(db)
    ensures Authenticated(db, token, request, now, slidAt, ttl).0.inboxes.Keys == db.inboxes.Keys
    ensures Authenticated(db, token, request, now, slidAt, ttl).0.nextInbox == db.nextInbox
    ensures Authenticated(db, token, request, now, slidAt, ttl).0.sessions
         == if token != "" && FindSession(db, token, now).Ok?
            then db.sessions[token := db.sessions[token].(expiresAt := Unix(slidAt + ttl))] else db.sessions
  {
    if token != "" && FindSession(db, token, now).Ok? {
      var inbox := FindSession(db, token, now).value.1;
      SlideKeepsConsistent(db, token, inbox.id, slidAt, ttl);
      ServeLeavesAccounts(Slide(db, token, inbox.id, slidAt, ttl), inbox, request);
    }
  }

  lemma VisitTracks(db: Db, event: Event, token: string, life: Life, clock: int, days: nat)
    requires Consistent(db) && Tracks(db, token, life, clock, days) && token != ""
    requires event.Visit? && clock <= event.now <= event.slidAt
    ensures Tracks(Handle(db, event, days).0, token, NextLife(life, db, event, token, days), event.slidAt, days)
  {
    UnixMonotone(clock, event.slidAt);
    UnixAfterDays(event.slidAt, days);
    TrackingAnswers(db, token, life, clock, event.now, days);
    VisitMovesOneExpiry(db, event.token, event.request, event.now, event.slidAt, days * DAY);
  }

  // Operations off the sessions table drop a session only together with its inbox.
  lemma OtherLeavesSessions(db: Db, op: OtherOp)
    requires Consistent(db)
    ensures forall t <- Apply(db, op).sessions :: t in db.sessions && Apply(db, op).sessions[t] == db.sessions[t]
    ensures forall t <- db.sessions :: t !in Apply(db, op).sessions ==> db.sessions[t].inboxId !in Apply(db, op).inboxes
  {}

  lemma OtherTracks(db: Db, op: OtherOp, token: string, life: Life, clock: int, days: nat)
    requires Consistent(db) && Tracks(db, token, life, clock, days)
    ensures Tracks(Apply(db, op), token, life, clock, days)
  {
    OtherLeavesSessions(db, op);
    StepEvolves(db, op);
  }

  lemma LoginTracks(db: Db, event: Event, token: string, life: Life, clock: int, days: nat)
    requires Consistent(db) && Tracks(db, token, life, clock, days)
    requires event.Login? && clock <= event.now && (event.token == token ==> life.Never?)
    ensures Tracks(Handle(db, event, days).0, token, NextLife(life, db, event, token, days), event.now, days)
  {
    UnixMonotone(clock, event.now);
    UnixAfterDays(event.now, days);
  }

  lemma EventTracks(db: Db, event: Event, token: string, life: Life, clock: int, days: nat)
    requires Consistent(db) && Tracks(db, token, life, clock, days) && token != ""
    requires clock <= Begins(event, clock) <= Ends(event, clock)
    requires LogsIn(event, token) ==> life.Never?
    ensures Tracks(Handle(db, event, days).0, token, NextLife(life, db, event, token, days), Ends(event, clock), days)
  {
    UnixMonotone(clock, Ends(event, clock));
    match event
    case Login(_, _, _) => LoginTracks(db, event, token, life, clock, days);
    case Visit(_, _, _, _) => VisitTracks(db, event, token, life, clock, days);
    case Other(op) => OtherTracks(db, op, token, life, clock, days);
    case _ =>
  }

  lemma {:induction false} RunTracks(db: Db, events: seq<Event>, token: string, life: Life, clock: int, days: nat)
    requires Consistent(db) && Tracks(db, token, life, clock, days) && token != ""
    requires Timely(events, clock) && FreshTokens(events)
    requires !life.Never? ==> forall e <- events :: !LogsIn(e, token)
    ensures Tracks(Run(db, events, days), token, LifeAfter(life, db, events, token, days),
                   LastReading(events, clock), days)
    decreases |events|
  {
    if events != [] {
      var event, rest := events[0], events[1..];
      HandleKeepsConsistent(db, event, days);
      EventTracks(db, event, token, life, clock, days);
      var life' := NextLife(life, db, event, token, days);
      if life.Never? && !life'.Never? {
        forall e | e in rest ensures !LogsIn(e, token) {
          var j :| 0 <= j < |rest| && rest[j] == e;
          assert events[j + 1] == e && events[0].Login?;
        }
      }
      assert FreshTokens(rest) by {
        forall i, j | 0 <= i < j < |rest| && rest[i].Login? ensures !LogsIn(rest[j], rest[i].token) {
          assert events[i + 1] == rest[i] && events[j + 1] == rest[j];
        }
      }
      RunTracks(Handle(db, event, days).0, rest, token, life', Ends(event, clock), days);
    }
  }

  /** In every run, a token not yet in use at the start opens a mailbox at `now` exactly when it
      was handed out by a login, was not logged out since, its inbox still exists, and less than
      the session's time to live in floored seconds has passed since the last login or visit
      that got in. It opens the mailbox it was handed out for. */
  lemma {:induction false} TokenOpensIff(db: Db, events: seq<Event>, token: string, clock: int, now: int, days: nat)
    requires Consistent(db) && token !in db.sessions && token != ""
    requires Timely(events, clock) && FreshTokens(events) && LastReading(events, clock) <= now
    ensures var life := LifeAfter(Never, db, events, token, days);
            var after := Run(db, events, days);
            && (FindSession(after, token, now).Ok? <==> Opens(life, after, now, days))
            && (FindSession(after, token, now).Ok? ==>
                  FindSession(after, token, now).value.1 == after.inboxes[life.inboxId])
  {
    RunTracks(db, events, token, Never, clock, days);
    TrackingAnswers(Run(db, events, days), token, LifeAfter(Never, db, events, token, days),
                    LastReading(events, clock), now, days);
  }
}
