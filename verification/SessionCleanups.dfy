/** The background deletion of expired sessions (internal/worker/cleanup.go) is invisible. */
module SessionCleanups {
  import opened Outcome
  import opened Clock
  import opened Schema
  import opened StoreRuns
  import opened Ordering
  import opened Queries
  import opened Mailbox
  import opened SessionTraces

  function LiveRow(db: Db, token: string, clock: int): Option<Session> {
    if token in db.sessions && db.sessions[token].expiresAt > Unix(clock) then Some(db.sessions[token]) else None
  }

  /** Equal databases but for sessions that are expired at `clock`. */
  ghost predicate Similar(p: Db, q: Db, clock: int) {
    && q == p.(sessions := q.sessions)
    && forall t :: LiveRow(p, t, clock) == LiveRow(q, t, clock)
  }

  lemma SimilarLater(p: Db, q: Db, clock: int, later: int)
    requires Similar(p, q, clock) && clock <= later
    ensures Similar(p, q, later)
  {
    UnixMonotone(clock, later);
    forall t ensures LiveRow(p, t, later) == LiveRow(q, t, later) {
      assert LiveRow(p, t, clock) == LiveRow(q, t, clock);
    }
  }

  lemma SimilarFinds(p: Db, q: Db, clock: int, token: string, now: int)
    requires Similar(p, q, clock) && clock <= now
    ensures FindSession(p, token, now) == FindSession(q, token, now)
  {
    SimilarLater(p, q, clock, now);
    assert LiveRow(p, token, now) == LiveRow(q, token, now);
  }

  // ----- Every event preserves similarity and answers alike -----

  lemma ReadsIgnoreSessions(p: Db, q: Db, inboxId: int)
    requires Keyed(p) && Keyed(q) && q == p.(sessions := q.sessions)
    ensures EmailPage(p, inboxId, 50, 0) == EmailPage(q, inboxId, 50, 0)
    ensures UnreadCount(p, inboxId) == UnreadCount(q, inboxId)
    ensures forall e :: ListedAttachments(p, e) == ListedAttachments(q, e)
  {
    assert EmailsOf(p, inboxId) == EmailsOf(q, inboxId);
    assert UnreadIds(p, inboxId) == UnreadIds(q, inboxId);
    forall e ensures ListedAttachments(p, e) == ListedAttachments(q, e) {
      assert AttachmentsOf(p, e) == AttachmentsOf(q, e);
    }
  }

  lemma ViewIgnoresSessions(p: Db, q: Db, inbox: Inbox, emailId: int)
    requires Keyed(p) && Keyed(q) && q == p.(sessions := q.sessions)
    ensures View(p, inbox, emailId).1 == View(q, inbox, emailId).1
    ensures View(q, inbox, emailId).0 == View(p, inbox, emailId).0.(sessions := q.sessions)
  {
    if 0 < emailId && FindEmail(p, inbox.id, emailId).Ok? {
      var email := FindEmail(p, inbox.id, emailId).value;
      MarkReadKeepsKeys(p, email.id);
      MarkReadKeepsKeys(q, email.id);
      ReadsIgnoreSessions(View(p, inbox, emailId).0, View(q, inbox, emailId).0, inbox.id);
    }
  }

  lemma ServeIgnoresSessions(p: Db, q: Db, inbox: Inbox, request: Request)
    requires Keyed(p) && Keyed(q) && q == p.(sessions := q.sessions)
    ensures Serve(p, inbox, request).1 == Serve(q, inbox, request).1
    ensures Serve(q, inbox, request).0 == Serve(p, inbox, request).0.(sessions := q.sessions)
  {
    match request
    case Index => ReadsIgnoreSessions(p, q, inbox.id);
    case ApiEmails => ReadsIgnoreSessions(p, q, inbox.id);
    case ViewEmail(emailId) => ViewIgnoresSessions(p, q, inbox, emailId);
    case _ =>
  }

  lemma SimilarSlides(p: Db, q: Db, token: string, slidAt: int, ttl: int, clock: int)
    requires Consistent(p) && Consistent(q) && Similar(p, q, clock) && LiveRow(p, token, clock).Some?
    ensures token in p.sessions && token in q.sessions
    ensures Similar(Slide(p, token, p.sessions[token].inboxId, slidAt, ttl),
                    Slide(q, token, p.sessions[token].inboxId, slidAt, ttl), clock)
  {
    assert LiveRow(p, token, clock) == LiveRow(q, token, clock);
    var p', q' := Slide(p, token, p.sessions[token].inboxId, slidAt, ttl),
                  Slide(q, token, p.sessions[token].inboxId, slidAt, ttl);
    forall t ensures LiveRow(p', t, clock) == LiveRow(q', t, clock) {
      assert LiveRow(p, t, clock) == LiveRow(q, t, clock);
    }
  }

  lemma SimilarVisits(p: Db, q: Db, clock: int, token: string, request: Request, now: int, slidAt: int, ttl: int)
    requires Consistent(p) && Consistent(q) && Similar(p, q, clock) && clock <= now <= slidAt
    ensures Authenticated(p, token, request, now, slidAt, ttl).1 == Authenticated(q, token, request, now, slidAt, ttl).1
    ensures Similar(Authenticated(p, token, request, now, slidAt, ttl).0,
                    Authenticated(q, token, request, now, slidAt, ttl).0, slidAt)
  {
    SimilarFinds(p, q, clock, token, now);
    SimilarLater(p, q, clock, now);
    SimilarLater(p, q, clock, slidAt);
    if token != "" && FindSession(p, token, now).Ok? {
      SimilarSlides(p, q, token, slidAt, ttl, now);
      SimilarServes(p, q, token, FindSession(p, token, now).value.1, request, now, slidAt, ttl);
    }
  }

  lemma SimilarServes(p: Db, q: Db, token: string, inbox: Inbox, request: Request, now: int, slidAt: int, ttl: int)
    requires Consistent(p) && Consistent(q) && now <= slidAt
    requires Similar(Slide(p, token, inbox.id, slidAt, ttl), Slide(q, token, inbox.id, slidAt, ttl), now)
    ensures Keyed(Slide(p, token, inbox.id, slidAt, ttl)) && Keyed(Slide(q, token, inbox.id, slidAt, ttl))
    ensures Serve(Slide(p, token, inbox.id, slidAt, ttl), inbox, request).1
         == Serve(Slide(q, token, inbox.id, slidAt, ttl), inbox, request).1
    ensures Similar(Serve(Slide(p, token, inbox.id, slidAt, ttl), inbox, request).0,
                    Serve(Slide(q, token, inbox.id, slidAt, ttl), inbox, request).0, slidAt)
  {
    SlideKeepsConsistent(p, token, inbox.id, slidAt, ttl);
    SlideKeepsConsistent(q, token, inbox.id, slidAt, ttl);
    ServedSimilar(Slide(p, token, inbox.id, slidAt, ttl), Slide(q, token, inbox.id, slidAt, ttl), inbox, request,
                  now, slidAt);
  }

  lemma ServedSimilar(p: Db, q: Db, inbox: Inbox, request: Request, now: int, later: int)
    requires Keyed(p) && Keyed(q) && Similar(p, q, now) && now <= later
    ensures Serve(p, inbox, request).1 == Serve(q, inbox, request).1
    ensures Similar(Serve(p, inbox, request).0, Serve(q, inbox, request).0, later)
  {
    ServeIgnoresSessions(p, q, inbox, request);
    ServeLeavesAccounts(p, inbox, request);
    ServeLeavesAccounts(q, inbox, request);
    SimilarLater(p, q, now, later);
    SimilarBySessions(p, q, Serve(p, inbox, request).0, Serve(q, inbox, request).0, later);
  }

  lemma SimilarBySessions(p: Db, q: Db, p': Db, q': Db, clock: int)
    requires Similar(p, q, clock) && q' == p'.(sessions := q'.sessions)
    requires p'.sessions == p.sessions && q'.sessions == q.sessions
    ensures Similar(p', q', clock)
  {
    forall t ensures LiveRow(p', t, clock) == LiveRow(q', t, clock) {
      assert LiveRow(p, t, clock) == LiveRow(q, t, clock);
    }
  }

  lemma SimilarExpiries(p: Db, q: Db, doomed: set<int>, clock: int)
    requires Similar(p, q, clock)
    ensures Similar(RemoveInboxes(p, doomed), RemoveInboxes(q, doomed), clock)
  {
    var p', q' := RemoveInboxes(p, doomed), RemoveInboxes(q, doomed);
    assert q' == p'.(sessions := q'.sessions);
    forall t ensures LiveRow(p', t, clock) == LiveRow(q', t, clock) {
      assert LiveRow(p, t, clock) == LiveRow(q, t, clock);
    }
  }

  lemma SimilarOthers(p: Db, q: Db, op: OtherOp, clock: int)
    requires Consistent(p) && Similar(p, q, clock)
    ensures Similar(Apply(p, op), Apply(q, op), clock)
  {
    if op.DeleteExpiredInboxes? {
      SimilarExpiries(p, q, ExpiredInboxes(p, op.now), clock);
      assert ExpiredInboxes(p, op.now) == ExpiredInboxes(q, op.now);
    } else {
      OthersIgnoreSessions(p, q, op);
      SimilarBySessions(p, q, Apply(p, op), Apply(q, op), clock);
    }
  }

  lemma OthersIgnoreSessions(p: Db, q: Db, op: OtherOp)
    requires q == p.(sessions := q.sessions) && !op.DeleteExpiredInboxes?
    ensures Apply(q, op) == Apply(p, op).(sessions := q.sessions)
    ensures Apply(p, op).sessions == p.sessions
  {
    match op
    case SaveInboundMessage(email, attachments, faults) => SavesIgnoreSessions(p, q, email, attachments, faults);
    case MarkEmailAsRead(emailId) => MarkIgnoresSessions(p, q, emailId);
    case DeleteEmail(inboxId, emailId) => RemovalIgnoresSessions(p, q, inboxId, emailId);
    case SaveEmail(email) => InsertIgnoresSessions(p, q, email);
    case SaveAttachment(attachment) => AttachIgnoresSessions(p, q, attachment);
    case CreateInbox(_, _, _, _, _, _) => InboxesIgnoreSessions(p, q, op);
    case UpdateLastAccessed(_, _) => InboxesIgnoreSessions(p, q, op);
    case _ => DomainsIgnoreSessions(p, q, op);
  }

  lemma InsertIgnoresSessions(p: Db, q: Db, email: Email)
    requires q == p.(sessions := q.sessions)
    ensures InsertEmail(q, email).0 == InsertEmail(p, email).0.(sessions := q.sessions)
    ensures InsertEmail(p, email).0.sessions == p.sessions
  {}

  lemma AttachIgnoresSessions(p: Db, q: Db, attachment: Attachment)
    requires q == p.(sessions := q.sessions)
    ensures InsertAttachment(q, attachment).0 == InsertAttachment(p, attachment).0.(sessions := q.sessions)
    ensures InsertAttachment(p, attachment).0.sessions == p.sessions
  {}

  lemma StoresIgnoreSessions(p: Db, q: Db, emailId: int, attachments: seq<Attachment>)
    requires q == p.(sessions := q.sessions)
    ensures StoredAttachments(q, emailId, attachments)
         == StoredAttachments(p, emailId, attachments).(sessions := q.sessions)
    ensures StoredAttachments(p, emailId, attachments).sessions == p.sessions
  {}

  lemma SavesIgnoreSessions(p: Db, q: Db, email: Email, attachments: seq<Attachment>, faults: set<nat>)
    requires q == p.(sessions := q.sessions)
    ensures SaveMessage(q, email, attachments, faults).0
         == SaveMessage(p, email, attachments, faults).0.(sessions := q.sessions)
    ensures SaveMessage(p, email, attachments, faults).0.sessions == p.sessions
  {
    InsertIgnoresSessions(p, q, email);
    StoresIgnoreSessions(InsertEmail(p, email).0, InsertEmail(q, email).0, p.nextEmail, attachments);
  }

  lemma MarkIgnoresSessions(p: Db, q: Db, emailId: int)
    requires q == p.(sessions := q.sessions)
    ensures MarkRead(q, emailId).0 == MarkRead(p, emailId).0.(sessions := q.sessions)
    ensures MarkRead(p, emailId).0.sessions == p.sessions
  {}

  lemma RemovalIgnoresSessions(p: Db, q: Db, inboxId: int, emailId: int)
    requires q == p.(sessions := q.sessions)
    ensures RemoveEmail(q, inboxId, emailId).0 == RemoveEmail(p, inboxId, emailId).0.(sessions := q.sessions)
    ensures RemoveEmail(p, inboxId, emailId).0.sessions == p.sessions
  {}

  lemma InboxesIgnoreSessions(p: Db, q: Db, op: Op)
    requires q == p.(sessions := q.sessions) && (op.CreateInbox? || op.UpdateLastAccessed?)
    ensures Apply(q, op) == Apply(p, op).(sessions := q.sessions)
    ensures Apply(p, op).sessions == p.sessions
  {}

  lemma DomainsIgnoreSessions(p: Db, q: Db, op: Op)
    requires q == p.(sessions := q.sessions) && (op.CreateDomain? || op.SetDomainEnabled? || op.SetSetting?)
    ensures Apply(q, op) == Apply(p, op).(sessions := q.sessions)
    ensures Apply(p, op).sessions == p.sessions
  {}

  lemma SimilarTokens(p: Db, q: Db, clock: int, p': Db, q': Db, token: string)
    requires Similar(p, q, clock) && q' == p'.(sessions := q'.sessions)
    requires p'.sessions - {token} == p.sessions - {token} && q'.sessions - {token} == q.sessions - {token}
    requires LiveRow(p', token, clock) == LiveRow(q', token, clock)
    ensures Similar(p', q', clock)
  {
    forall t ensures LiveRow(p', t, clock) == LiveRow(q', t, clock) {
      if t != token {
        assert LiveRow(p, t, clock) == LiveRow(q, t, clock);
        assert t in p'.sessions <==> t in p'.sessions - {token};
        assert t in p.sessions <==> t in p.sessions - {token};
        assert t in q'.sessions <==> t in q'.sessions - {token};
        assert t in q.sessions <==> t in q.sessions - {token};
      }
    }
  }

  lemma SimilarLogins(p: Db, q: Db, event: Event, days: nat)
    requires Consistent(p) && Consistent(q) && event.Login? && Similar(p, q, event.now)
    requires event.token !in p.sessions && event.token !in q.sessions
    ensures Handle(p, event, days).1 == Handle(q, event, days).1
    ensures Similar(Handle(p, event, days).0, Handle(q, event, days).0, event.now)
  {
    SimilarStarts(p, q, event.token, event.inboxId, event.now, days);
  }

  lemma SimilarStarts(p: Db, q: Db, token: string, inboxId: int, now: int, days: nat)
    requires Similar(p, q, now) && token !in p.sessions && token !in q.sessions
    ensures Start(p, token, inboxId, now, days).1 == Start(q, token, inboxId, now, days).1
    ensures Similar(Start(p, token, inboxId, now, days).0, Start(q, token, inboxId, now, days).0, now)
  {
    var p', q' := Start(p, token, inboxId, now, days).0, Start(q, token, inboxId, now, days).0;
    assert q' == p'.(sessions := q'.sessions);
    forall t ensures LiveRow(p', t, now) == LiveRow(q', t, now) {
      assert LiveRow(p, t, now) == LiveRow(q, t, now);
    }
  }

  lemma SimilarLogouts(p: Db, q: Db, token: string, clock: int)
    requires Similar(p, q, clock)
    ensures Similar(RemoveSession(p, token).0, RemoveSession(q, token).0, clock)
  {
    SimilarTokens(p, q, clock, RemoveSession(p, token).0, RemoveSession(q, token).0, token);
  }

  lemma SimilarEvents(p: Db, q: Db, event: Event, clock: int, days: nat)
    requires Consistent(p) && Consistent(q) && Similar(p, q, clock)
    requires clock <= Begins(event, clock) <= Ends(event, clock)
    requires event.Login? ==> event.token !in p.sessions && event.token !in q.sessions
    ensures Handle(p, event, days).1 == Handle(q, event, days).1
    ensures Similar(Handle(p, event, days).0, Handle(q, event, days).0, Ends(event, clock))
  {
    SimilarLater(p, q, clock, Ends(event, clock));
    match event
    case Login(_, _, _) => SimilarLogins(p, q, event, days);
    case Visit(token, request, now, slidAt) =>
      SimilarVisits(p, q, clock, token, request, now, slidAt, days * DAY);
    case Peek(token, now) => SimilarFinds(p, q, clock, token, now);
    case Logout(token) => SimilarLogouts(p, q, token, clock);
    case SessionCleanup(now) => SimilarCleanups(p, q, now);
    case Other(op) => SimilarOthers(p, q, op, clock);
  }

  lemma SimilarCleanups(p: Db, q: Db, now: int)
    requires Similar(p, q, now)
    ensures Similar(RemoveExpiredSessions(p, now), RemoveExpiredSessions(q, now), now)
    ensures Similar(RemoveExpiredSessions(p, now), q, now)
  {
    var p', q' := RemoveExpiredSessions(p, now), RemoveExpiredSessions(q, now);
    forall t ensures LiveRow(p', t, now) == LiveRow(q', t, now) && LiveRow(p', t, now) == LiveRow(q, t, now) {
      assert LiveRow(p, t, now) == LiveRow(q, t, now);
    }
  }

  // ----- Whole runs -----

  // The replies to everything but the cleanups.
  function Replies(db: Db, events: seq<Event>, days: nat): seq<Reply>
    requires Consistent(db)
    decreases |events|
  {
    if events == [] then [] else
    HandleKeepsConsistent(db, events[0], days);
    (if events[0].SessionCleanup? then [] else [Handle(db, events[0], days).1])
      + Replies(Handle(db, events[0], days).0, events[1..], days)
  }

  function WithoutCleanups(events: seq<Event>): seq<Event> {
    if events == [] then []
    else (if events[0].SessionCleanup? then [] else [events[0]]) + WithoutCleanups(events[1..])
  }

  ghost predicate TokensUnused(db: Db, events: seq<Event>) {
    forall i :: 0 <= i < |events| && events[i].Login? ==> events[i].token !in db.sessions
  }

  lemma UnusedAfter(db: Db, events: seq<Event>, days: nat)
    requires Consistent(db) && events != [] && FreshTokens(events) && TokensUnused(db, events)
    ensures TokensUnused(Handle(db, events[0], days).0, events[1..])
    ensures FreshTokens(events[1..])
  {
    var after := Handle(db, events[0], days).0;
    SessionsOnlyFromLogins(db, events[0], days);
    forall i | 0 <= i < |events[1..]| && events[1..][i].Login? ensures events[1..][i].token !in after.sessions {
      assert events[1..][i] == events[i + 1];
    }
    forall i, j | 0 <= i < j < |events[1..]| && events[1..][i].Login?
      ensures !LogsIn(events[1..][j], events[1..][i].token)
    {
      assert events[1..][i] == events[i + 1] && events[1..][j] == events[j + 1];
    }
  }

  lemma SessionsOnlyFromLogins(db: Db, event: Event, days: nat)
    requires Consistent(db)
    ensures forall t <- Handle(db, event, days).0.sessions :: t in db.sessions || LogsIn(event, t)
  {
    match event
    case Visit(token, request, now, slidAt) => VisitMovesOneExpiry(db, token, request, now, slidAt, days * DAY);
    case Other(op) => OtherLeavesSessions(db, op);
    case _ =>
  }

  lemma {:induction false} SimilarRuns(p: Db, q: Db, events: seq<Event>, clock: int, days: nat)
    requires Consistent(p) && Consistent(q) && Similar(p, q, clock)
    requires Timely(events, clock) && FreshTokens(events) && TokensUnused(p, events) && TokensUnused(q, events)
    ensures Replies(p, events, days) == Replies(q, WithoutCleanups(events), days)
    decreases |events|
  {
    if events != [] {
      var event, rest := events[0], events[1..];
      HandleKeepsConsistent(p, event, days);
      HandleKeepsConsistent(q, event, days);
      UnusedAfter(p, events, days);
      UnusedAfter(q, events, days);
      var p' := Handle(p, event, days).0;
      if event.SessionCleanup? {
        SimilarLater(p, q, clock, event.now);
        SimilarCleanups(p, q, event.now);
        assert TokensUnused(q, rest) by {
          forall i | 0 <= i < |rest| && rest[i].Login? ensures rest[i].token !in q.sessions {
            assert rest[i] == events[i + 1];
          }
        }
        SimilarRuns(p', q, rest, event.now, days);
        assert WithoutCleanups(events) == WithoutCleanups(rest);
      } else {
        SimilarEvents(p, q, event, clock, days);
        SimilarRuns(p', Handle(q, event, days).0, rest, Ends(event, clock), days);
        assert WithoutCleanups(events)[0] == event && WithoutCleanups(events)[1..] == WithoutCleanups(rest);
      }
    }
  }

  /** Wherever in a run expired sessions are deleted, no login, visit, lookup or logout is
      answered differently than if they were never deleted. */
  lemma {:induction false} CleanupsAreInvisible(db: Db, events: seq<Event>, clock: int, days: nat)
    requires Consistent(db) && Timely(events, clock) && FreshTokens(events) && TokensUnused(db, events)
    ensures Replies(db, events, days) == Replies(db, WithoutCleanups(events), days)
  {
    SimilarRuns(db, db, events, clock, days);
  }
}
