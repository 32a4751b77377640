/** One mailbox cannot see or touch another: what a request authenticated as inbox A returns
    and leaves depends only on A's rows, and only A's rows change. */
module Isolation {
  import opened Outcome
  import opened Clock
  import opened Schema
  import opened StoreRuns
  import opened Ordering
  import opened Queries
  import opened Mailbox

  // ----- The rows of one inbox -----

  function OwnSessions(db: Db, inboxId: int): map<string, Session> {
    map t | t in db.sessions && db.sessions[t].inboxId == inboxId :: db.sessions[t]
  }

  function OwnEmails(db: Db, inboxId: int): map<int, Email> {
    map i | i in db.emails && db.emails[i].inboxId == inboxId :: db.emails[i]
  }

  function OwnAttachments(db: Db, inboxId: int): map<int, Attachment> {
    map i | i in db.attachments && db.attachments[i].emailId in OwnEmails(db, inboxId) :: db.attachments[i]
  }

  function OwnInbox(db: Db, inboxId: int): Option<Inbox> {
    if inboxId in db.inboxes then Some(db.inboxes[inboxId]) else None
  }

  /** The two databases hold the same rows for the inbox: itself, its sessions, its emails
      and their attachments. */
  ghost predicate SameSlice(p: Db, q: Db, inboxId: int) {
    && OwnInbox(p, inboxId) == OwnInbox(q, inboxId)
    && OwnSessions(p, inboxId) == OwnSessions(q, inboxId)
    && OwnEmails(p, inboxId) == OwnEmails(q, inboxId)
    && OwnAttachments(p, inboxId) == OwnAttachments(q, inboxId)
  }

  // ----- What is read comes from the slice -----

  lemma EmailRowsAreOwn(db: Db, inboxId: int, row: Email)
    ensures row in EmailsOf(db, inboxId)
       <==> exists i :: i in OwnEmails(db, inboxId) && OwnEmails(db, inboxId)[i] == row
  {
    if row in EmailsOf(db, inboxId) {
      var i :| i in db.emails && db.emails[i].inboxId == inboxId && db.emails[i] == row;
      assert i in OwnEmails(db, inboxId) && OwnEmails(db, inboxId)[i] == row;
    }
  }

  lemma EmailRowsAgree(p: Db, q: Db, inboxId: int)
    requires OwnEmails(p, inboxId) == OwnEmails(q, inboxId)
    ensures EmailsOf(p, inboxId) == EmailsOf(q, inboxId)
    ensures UnreadIds(p, inboxId) == UnreadIds(q, inboxId)
  {
    forall row ensures row in EmailsOf(p, inboxId) <==> row in EmailsOf(q, inboxId) {
      EmailRowsAreOwn(p, inboxId, row);
      EmailRowsAreOwn(q, inboxId, row);
    }
    assert UnreadIds(p, inboxId) == set i | i in OwnEmails(p, inboxId) && !OwnEmails(p, inboxId)[i].isRead;
    assert UnreadIds(q, inboxId) == set i | i in OwnEmails(q, inboxId) && !OwnEmails(q, inboxId)[i].isRead;
  }

  lemma ListingsAgree(p: Db, q: Db, inboxId: int)
    requires Keyed(p) && Keyed(q) && OwnEmails(p, inboxId) == OwnEmails(q, inboxId)
    ensures EmailPage(p, inboxId, 50, 0) == EmailPage(q, inboxId, 50, 0)
    ensures UnreadCount(p, inboxId) == UnreadCount(q, inboxId)
  {
    EmailRowsAgree(p, q, inboxId);
  }

  lemma FoundEmailsAgree(p: Db, q: Db, inboxId: int, emailId: int)
    requires OwnEmails(p, inboxId) == OwnEmails(q, inboxId)
    ensures FindEmail(p, inboxId, emailId) == FindEmail(q, inboxId, emailId)
    ensures FindEmail(p, inboxId, emailId).Ok? <==> emailId in OwnEmails(p, inboxId)
  {
    assert emailId in OwnEmails(p, inboxId) <==> emailId in OwnEmails(q, inboxId);
  }

  lemma AttachmentRowsAreOwn(db: Db, inboxId: int, emailId: int, row: Attachment)
    requires emailId in OwnEmails(db, inboxId)
    ensures row in AttachmentsOf(db, emailId)
       <==> row.emailId == emailId
            && exists i :: i in OwnAttachments(db, inboxId) && OwnAttachments(db, inboxId)[i] == row
  {
    if row in AttachmentsOf(db, emailId) {
      var i :| i in db.attachments && db.attachments[i].emailId == emailId && db.attachments[i] == row;
      assert i in OwnAttachments(db, inboxId) && OwnAttachments(db, inboxId)[i] == row;
    }
  }

  lemma AttachmentRowsAgree(p: Db, q: Db, inboxId: int, emailId: int)
    requires OwnAttachments(p, inboxId) == OwnAttachments(q, inboxId)
    requires emailId in OwnEmails(p, inboxId) && emailId in OwnEmails(q, inboxId)
    ensures AttachmentsOf(p, emailId) == AttachmentsOf(q, emailId)
  {
    forall row ensures row in AttachmentsOf(p, emailId) <==> row in AttachmentsOf(q, emailId) {
      AttachmentRowsAreOwn(p, inboxId, emailId, row);
      AttachmentRowsAreOwn(q, inboxId, emailId, row);
    }
  }

  lemma FetchesAgree(p: Db, q: Db, inbox: Inbox, emailId: int, attachmentId: int)
    requires Keyed(p) && Keyed(q) && SameSlice(p, q, inbox.id)
    ensures Fetch(p, inbox, emailId, attachmentId) == Fetch(q, inbox, emailId, attachmentId)
  {
    FoundEmailsAgree(p, q, inbox.id, emailId);
    var own, own' := OwnAttachments(p, inbox.id), OwnAttachments(q, inbox.id);
    if FindEmail(p, inbox.id, emailId).Ok? {
      assert attachmentId in p.attachments && p.attachments[attachmentId].emailId == emailId ==> attachmentId in own;
      assert attachmentId in q.attachments && q.attachments[attachmentId].emailId == emailId ==> attachmentId in own';
      assert attachmentId in own <==> attachmentId in own';
    }
  }

  // ----- What is written stays in the slice -----

  lemma MarkReadStaysHome(db: Db, inboxId: int, emailId: int)
    requires Keyed(db) && emailId in OwnEmails(db, inboxId)
    ensures OwnEmails(MarkRead(db, emailId).0, inboxId)
         == OwnEmails(db, inboxId)[emailId := OwnEmails(db, inboxId)[emailId].(isRead := true)]
    ensures OwnAttachments(MarkRead(db, emailId).0, inboxId) == OwnAttachments(db, inboxId)
    ensures forall other :: other != inboxId ==> SameSlice(MarkRead(db, emailId).0, db, other)
  {
    var after := MarkRead(db, emailId).0;
    assert forall i <- after.emails :: after.emails[i].inboxId == db.emails[i].inboxId;
    forall other | other != inboxId ensures SameSlice(after, db, other) {
      assert OwnEmails(after, other) == OwnEmails(db, other);
    }
    assert OwnEmails(after, inboxId).Keys == OwnEmails(db, inboxId).Keys;
  }

  lemma RemoveEmailStaysHome(db: Db, inboxId: int, emailId: int)
    requires Consistent(db) && emailId in OwnEmails(db, inboxId)
    ensures OwnEmails(RemoveEmail(db, inboxId, emailId).0, inboxId) == OwnEmails(db, inboxId) - {emailId}
    ensures OwnAttachments(RemoveEmail(db, inboxId, emailId).0, inboxId)
         == map i | i in OwnAttachments(db, inboxId) && OwnAttachments(db, inboxId)[i].emailId != emailId
            :: OwnAttachments(db, inboxId)[i]
    ensures forall other :: other != inboxId ==> SameSlice(RemoveEmail(db, inboxId, emailId).0, db, other)
  {
    var after := RemoveEmail(db, inboxId, emailId).0;
    forall other | other != inboxId ensures SameSlice(after, db, other) {
      assert OwnEmails(after, other) == OwnEmails(db, other);
      assert OwnAttachments(after, other) == OwnAttachments(db, other);
    }
  }

  lemma SlideSetsOwnRows(db: Db, token: string, inboxId: int, slidAt: int, ttl: int)
    requires Consistent(db) && token in OwnSessions(db, inboxId)
    ensures OwnSessions(Slide(db, token, inboxId, slidAt, ttl), inboxId)
         == OwnSessions(db, inboxId)[token := OwnSessions(db, inboxId)[token].(expiresAt := Unix(slidAt + ttl))]
    ensures OwnInbox(Slide(db, token, inboxId, slidAt, ttl), inboxId)
         == Some(db.inboxes[inboxId].(lastAccessedAt := Unix(slidAt)))
    ensures OwnEmails(Slide(db, token, inboxId, slidAt, ttl), inboxId) == OwnEmails(db, inboxId)
    ensures OwnAttachments(Slide(db, token, inboxId, slidAt, ttl), inboxId) == OwnAttachments(db, inboxId)
  {
    var after := Slide(db, token, inboxId, slidAt, ttl);
    assert OwnSessions(after, inboxId).Keys == OwnSessions(db, inboxId).Keys;
  }

  lemma SlideStaysHome(db: Db, token: string, inboxId: int, slidAt: int, ttl: int, other: int)
    requires Consistent(db) && token in OwnSessions(db, inboxId) && other != inboxId
    ensures SameSlice(Slide(db, token, inboxId, slidAt, ttl), db, other)
  {
    var after := Slide(db, token, inboxId, slidAt, ttl);
    assert after.emails == db.emails && after.attachments == db.attachments;
    assert OwnSessions(after, other) == OwnSessions(db, other);
  }

  lemma InsertEmailSlice(db: Db, email: Email, inboxId: int)
    requires Consistent(db) && email.inboxId in db.inboxes
    ensures var (after, result) := InsertEmail(db, email);
            && OwnEmails(after, inboxId)
               == (if email.inboxId == inboxId then OwnEmails(db, inboxId)[db.nextEmail := result.value]
                   else OwnEmails(db, inboxId))
            && OwnAttachments(after, inboxId) == OwnAttachments(db, inboxId)
  {
    var after := InsertEmail(db, email).0;
    assert db.nextEmail !in db.emails;
    assert forall i <- db.attachments :: db.attachments[i].emailId in db.emails;
    assert forall i <- db.attachments ::
      db.attachments[i].emailId in OwnEmails(after, inboxId) <==> db.attachments[i].emailId in OwnEmails(db, inboxId);
  }

  // ----- The handlers -----

  lemma ServeAgrees(p: Db, q: Db, inbox: Inbox, request: Request)
    requires Consistent(p) && Consistent(q) && SameSlice(p, q, inbox.id)
    ensures Serve(p, inbox, request).1 == Serve(q, inbox, request).1
    ensures SameSlice(Serve(p, inbox, request).0, Serve(q, inbox, request).0, inbox.id)
  {
    match request
    case Index => ListingsAgree(p, q, inbox.id);
    case ApiEmails => ListingsAgree(p, q, inbox.id);
    case Download(emailId, attachmentId) => FetchesAgree(p, q, inbox, emailId, attachmentId);
    case ViewEmail(emailId) => ViewAgrees(p, q, inbox, emailId);
    case Discard(emailId) => EraseAgrees(p, q, inbox, emailId);
  }

  lemma ViewAgrees(p: Db, q: Db, inbox: Inbox, emailId: int)
    requires Consistent(p) && Consistent(q) && SameSlice(p, q, inbox.id)
    ensures View(p, inbox, emailId).1 == View(q, inbox, emailId).1
    ensures SameSlice(View(p, inbox, emailId).0, View(q, inbox, emailId).0, inbox.id)
  {
    FoundEmailsAgree(p, q, inbox.id, emailId);
    if 0 < emailId && FindEmail(p, inbox.id, emailId).Ok? {
      MarkReadStaysHome(p, inbox.id, emailId);
      MarkReadStaysHome(q, inbox.id, emailId);
      var p', q' := View(p, inbox, emailId).0, View(q, inbox, emailId).0;
      assert SameSlice(p', q', inbox.id);
      AttachmentRowsAgree(p', q', inbox.id, emailId);
    }
  }

  lemma EraseAgrees(p: Db, q: Db, inbox: Inbox, emailId: int)
    requires Consistent(p) && Consistent(q) && SameSlice(p, q, inbox.id)
    ensures Erase(p, inbox, emailId).1 == Erase(q, inbox, emailId).1
    ensures SameSlice(Erase(p, inbox, emailId).0, Erase(q, inbox, emailId).0, inbox.id)
  {
    FoundEmailsAgree(p, q, inbox.id, emailId);
    if 0 < emailId && FindEmail(p, inbox.id, emailId).Ok? {
      RemoveEmailStaysHome(p, inbox.id, emailId);
      RemoveEmailStaysHome(q, inbox.id, emailId);
    }
  }

  lemma ServeStaysHome(db: Db, inbox: Inbox, request: Request, other: int)
    requires Consistent(db) && other != inbox.id
    ensures SameSlice(Serve(db, inbox, request).0, db, other)
  {
    match request
    case ViewEmail(emailId) =>
      if FindEmail(db, inbox.id, emailId).Ok? { MarkReadStaysHome(db, inbox.id, emailId); }
    case Discard(emailId) =>
      if FindEmail(db, inbox.id, emailId).Ok? { RemoveEmailStaysHome(db, inbox.id, emailId); }
    case _ =>
  }

  // ----- Non-interference -----

  /** Two databases that agree on A's rows answer every request made with one of A's sessions
      alike, and still agree on A's rows afterwards, whatever else they hold. */
  lemma ResponsesDependOnOwnRowsOnly(p: Db, q: Db, token: string, request: Request, now: int, slidAt: int, ttl: int,
                                     inboxId: int)
    requires Consistent(p) && Consistent(q) && SameSlice(p, q, inboxId)
    requires token in p.sessions && p.sessions[token].inboxId == inboxId
    ensures Authenticated(p, token, request, now, slidAt, ttl).1 == Authenticated(q, token, request, now, slidAt, ttl).1
    ensures SameSlice(Authenticated(p, token, request, now, slidAt, ttl).0,
                      Authenticated(q, token, request, now, slidAt, ttl).0, inboxId)
  {
    assert token in OwnSessions(p, inboxId) && token in OwnSessions(q, inboxId);
    assert FindSession(p, token, now) == FindSession(q, token, now) by {
      assert OwnSessions(p, inboxId)[token] == OwnSessions(q, inboxId)[token];
    }
    if token != "" && FindSession(p, token, now).Ok? {
      var inbox := FindSession(p, token, now).value.1;
      SlideSetsOwnRows(p, token, inboxId, slidAt, ttl);
      SlideSetsOwnRows(q, token, inboxId, slidAt, ttl);
      SlideKeepsConsistent(p, token, inboxId, slidAt, ttl);
      SlideKeepsConsistent(q, token, inboxId, slidAt, ttl);
      ServeAgrees(Slide(p, token, inboxId, slidAt, ttl), Slide(q, token, inboxId, slidAt, ttl), inbox, request);
    }
  }

  lemma ServeFrame(db: Db, inbox: Inbox, request: Request)
    requires Keyed(db)
    ensures Serve(db, inbox, request).0
         == db.(emails := Serve(db, inbox, request).0.emails, attachments := Serve(db, inbox, request).0.attachments)
  {}

  /** No request changes the rows of any inbox but the one its session belongs to. */
  lemma RequestsStayHome(db: Db, token: string, request: Request, now: int, slidAt: int, ttl: int, other: int)
    requires Consistent(db)
    requires token in db.sessions ==> db.sessions[token].inboxId != other
    ensures SameSlice(Authenticated(db, token, request, now, slidAt, ttl).0, db, other)
  {
    if token != "" && FindSession(db, token, now).Ok? {
      var inbox := FindSession(db, token, now).value.1;
      SlideStaysHome(db, token, inbox.id, slidAt, ttl, other);
      SlideKeepsConsistent(db, token, inbox.id, slidAt, ttl);
      ServeStaysHome(Slide(db, token, inbox.id, slidAt, ttl), inbox, request, other);
    }
  }

  /** No request changes a domain, a setting or an id counter, and one without a live session
      changes nothing at all. */
  lemma RequestsTouchMailOnly(db: Db, token: string, request: Request, now: int, slidAt: int, ttl: int)
    requires Consistent(db)
    ensures Authenticated(db, token, request, now, slidAt, ttl).0.domains == db.domains
    ensures Authenticated(db, token, request, now, slidAt, ttl).0.settings == db.settings
    ensures Authenticated(db, token, request, now, slidAt, ttl).0.nextEmail == db.nextEmail
    ensures Authenticated(db, token, request, now, slidAt, ttl).0.nextInbox == db.nextInbox
    ensures Authenticated(db, token, request, now, slidAt, ttl).0.nextAttachment == db.nextAttachment
    ensures token == "" || FindSession(db, token, now).Err?
            ==> Authenticated(db, token, request, now, slidAt, ttl) == (db, AuthRequired)
  {
    if token != "" && FindSession(db, token, now).Ok? {
      var inbox := FindSession(db, token, now).value.1;
      SlideKeepsConsistent(db, token, inbox.id, slidAt, ttl);
      ServeFrame(Slide(db, token, inbox.id, slidAt, ttl), inbox, request);
    }
  }

  // ----- Whole runs -----

  datatype Visit = Visit(token: string, request: Request, now: int, slidAt: int)

  function After(db: Db, visit: Visit, ttl: int): (Db, Response)
    requires Consistent(db)
  {
    Authenticated(db, visit.token, visit.request, visit.now, visit.slidAt, ttl)
  }

  // The responses, along a run, to requests made with a session of the inbox.
  function Observed(db: Db, visits: seq<Visit>, ttl: int, inboxId: int): seq<Response>
    requires Consistent(db)
    decreases |visits|
  {
    if visits == [] then [] else
    var visit := visits[0];
    RequestKeepsConsistent(db, visit.token, visit.request, visit.now, visit.slidAt, ttl);
    (if visit.token in OwnSessions(db, inboxId) then [After(db, visit, ttl).1] else [])
      + Observed(After(db, visit, ttl).0, visits[1..], ttl, inboxId)
  }

  // The same run with everybody else's requests left out.
  function Purged(visits: seq<Visit>, tokens: set<string>): seq<Visit> {
    if visits == [] then []
    else (if visits[0].token in tokens then [visits[0]] else []) + Purged(visits[1..], tokens)
  }

  lemma TokensStay(db: Db, visit: Visit, ttl: int, inboxId: int)
    requires Consistent(db)
    ensures OwnSessions(After(db, visit, ttl).0, inboxId).Keys == OwnSessions(db, inboxId).Keys
  {
    if visit.token != "" && FindSession(db, visit.token, visit.now).Ok? {
      var inbox := FindSession(db, visit.token, visit.now).value.1;
      SlideKeepsConsistent(db, visit.token, inbox.id, visit.slidAt, ttl);
      ServeFrame(Slide(db, visit.token, inbox.id, visit.slidAt, ttl), inbox, visit.request);
    }
  }

  /** Non-interference over every run: what the holder of an inbox's sessions is answered does
      not change when all requests made with other sessions are left out. */
  lemma {:induction false} OthersAreInvisible(p: Db, q: Db, visits: seq<Visit>, ttl: int, inboxId: int)
    requires Consistent(p) && Consistent(q) && SameSlice(p, q, inboxId)
    ensures Observed(p, visits, ttl, inboxId)
         == Observed(q, Purged(visits, OwnSessions(p, inboxId).Keys), ttl, inboxId)
    decreases |visits|
  {
    if visits != [] {
      var visit, rest := visits[0], visits[1..];
      var p' := After(p, visit, ttl).0;
      RequestKeepsConsistent(p, visit.token, visit.request, visit.now, visit.slidAt, ttl);
      RequestKeepsConsistent(q, visit.token, visit.request, visit.now, visit.slidAt, ttl);
      TokensStay(p, visit, ttl, inboxId);
      var tokens := OwnSessions(p, inboxId).Keys;
      if visit.token in tokens {
        ResponsesDependOnOwnRowsOnly(p, q, visit.token, visit.request, visit.now, visit.slidAt, ttl, inboxId);
        OthersAreInvisible(p', After(q, visit, ttl).0, rest, ttl, inboxId);
        assert Purged(visits, tokens)[0] == visit && Purged(visits, tokens)[1..] == Purged(rest, tokens);
      } else {
        RequestsStayHome(p, visit.token, visit.request, visit.now, visit.slidAt, ttl, inboxId);
        OthersAreInvisible(p', q, rest, ttl, inboxId);
        assert Purged(visits, tokens) == Purged(rest, tokens);
      }
    }
  }
}
