/** The mailbox area: the session middleware of internal/web/middleware.go and the /app
    handlers of internal/web/handlers.go, as the statements they issue and their response. */
module Mailbox {
  import opened Outcome
  import opened Clock
  import opened Schema
  import opened StoreRuns
  import opened Queries
  import opened Repository

  datatype Request =
    | Index
    | ViewEmail(emailId: int)
    | Download(ownerEmail: int, attachmentId: int)
    | Discard(discarded: int)
    | ApiEmails

  datatype ApiEmail = ApiEmail(id: int, sender: string, senderName: string, subject: string,
                               hasAttachments: bool, isRead: bool, receivedAt: int)

  datatype Response =
    | InboxPage(inbox: Inbox, unread: nat, emails: seq<Email>)
    | MessagePage(reader: Inbox, email: Email, attachments: seq<Attachment>)
    | File(filename: string, contentType: string, sizeBytes: int, content: seq<byte>)
    | Api(address: string, expiresAt: int, unreadCount: nat, listed: seq<ApiEmail>)
    | Redirect(location: string)
    | NotFoundPage
    | BadRequest
    | AuthRequired

  function Summary(email: Email): ApiEmail {
    ApiEmail(email.id, email.sender, email.senderName, email.subject, email.hasAttachments, email.isRead,
             email.receivedAt)
  }

  function Summaries(emails: seq<Email>): seq<ApiEmail> {
    seq(|emails|, i requires 0 <= i < |emails| => Summary(emails[i]))
  }

  // ----- One request as one atomic step -----

  function View(db: Db, inbox: Inbox, emailId: int): (Db, Response)
    requires Keyed(db)
  {
    if emailId <= 0 then (db, BadRequest) else
    match FindEmail(db, inbox.id, emailId)
    case Err(_) => (db, NotFoundPage)
    case Ok(email) =>
      MarkReadKeepsKeys(db, email.id);
      var after := if email.isRead then db else MarkRead(db, email.id).0;
      (after, MessagePage(inbox, email.(isRead := true), ListedAttachments(after, email.id)))
  }

  function Fetch(db: Db, inbox: Inbox, emailId: int, attachmentId: int): Response {
    if emailId <= 0 || attachmentId <= 0 then BadRequest else
    match FindEmail(db, inbox.id, emailId)
    case Err(_) => NotFoundPage
    case Ok(email) =>
      match FindAttachment(db, attachmentId)
      case Err(_) => NotFoundPage
      case Ok(attachment) =>
        if attachment.emailId != email.id then NotFoundPage
        else File(attachment.filename, attachment.contentType, attachment.sizeBytes, attachment.content)
  }

  function Erase(db: Db, inbox: Inbox, emailId: int): (Db, Response) {
    if emailId <= 0 then (db, BadRequest) else
    var (after, result) := RemoveEmail(db, inbox.id, emailId);
    (after, if result.Ok? then Redirect("/app") else NotFoundPage)
  }

  function Serve(db: Db, inbox: Inbox, request: Request): (Db, Response)
    requires Keyed(db)
  {
    match request
    case Index => (db, InboxPage(inbox, UnreadCount(db, inbox.id), EmailPage(db, inbox.id, 50, 0)))
    case ViewEmail(emailId) => View(db, inbox, emailId)
    case Download(emailId, attachmentId) => (db, Fetch(db, inbox, emailId, attachmentId))
    case Discard(emailId) => Erase(db, inbox, emailId)
    case ApiEmails =>
      (db, Api(inbox.address, inbox.expiresAt, UnreadCount(db, inbox.id),
               Summaries(EmailPage(db, inbox.id, 50, 0))))
  }

  // What the middleware writes once the session is found: the new expiry and the access time.
  function Slide(db: Db, token: string, inboxId: int, slidAt: int, ttl: int): Db {
    SetLastAccessed(Touch(db, token, slidAt + ttl).0, inboxId, slidAt).0
  }

  // The session is looked up at `now` and slid forward at `slidAt`.
  function Authenticated(db: Db, token: string, request: Request, now: int, slidAt: int, ttl: int): (Db, Response)
    requires Consistent(db)
  {
    if token == "" then (db, AuthRequired) else
    match FindSession(db, token, now)
    case Err(_) => (db, AuthRequired)
    case Ok((session, inbox)) =>
      SlideKeepsConsistent(db, token, inbox.id, slidAt, ttl);
      Serve(Slide(db, token, inbox.id, slidAt, ttl), inbox, request)
  }

  lemma MarkReadKeepsKeys(db: Db, emailId: int)
    requires Keyed(db)
    ensures Keyed(MarkRead(db, emailId).0)
  {}

  lemma SlideKeepsConsistent(db: Db, token: string, inboxId: int, slidAt: int, ttl: int)
    requires Consistent(db)
    ensures Consistent(Slide(db, token, inboxId, slidAt, ttl))
  {
    TouchKeepsConsistent(db, token, slidAt + ttl);
    SetLastAccessedKeepsConsistent(Touch(db, token, slidAt + ttl).0, inboxId, slidAt);
  }

  lemma ServeKeepsConsistent(db: Db, inbox: Inbox, request: Request)
    requires Consistent(db)
    ensures Consistent(Serve(db, inbox, request).0)
  {
    match request
    case ViewEmail(emailId) =>
      if FindEmail(db, inbox.id, emailId).Ok? {
        MarkReadKeepsConsistent(db, FindEmail(db, inbox.id, emailId).value.id);
      }
    case Discard(emailId) => RemoveEmailKeepsConsistent(db, inbox.id, emailId);
    case _ =>
  }

  lemma RequestKeepsConsistent(db: Db, token: string, request: Request, now: int, slidAt: int, ttl: int)
    requires Consistent(db)
    ensures Consistent(Authenticated(db, token, request, now, slidAt, ttl).0)
  {
    if token != "" && FindSession(db, token, now).Ok? {
      var (session, inbox) := FindSession(db, token, now).value;
      SlideKeepsConsistent(db, token, inbox.id, slidAt, ttl);
      ServeKeepsConsistent(Slide(db, token, inbox.id, slidAt, ttl), inbox, request);
    }
  }

  // ----- The handlers -----

  class App {
    const repo: SQLite
    const sessionTTL: int

    constructor (repo: SQLite, sessionTTL: int)
      ensures this.repo == repo && this.sessionTTL == sessionTTL
    {
      this.repo := repo;
      this.sessionTTL := sessionTTL;
    }

    method HandleIndex(inbox: Inbox) returns (response: Response)
      requires repo.Valid()
      ensures response == Serve(repo.db, inbox, Index).1
    {
      var emails := repo.GetEmailsByInboxID(inbox.id, 50, 0);
      var unread := repo.GetUnreadCount(inbox.id);
      response := InboxPage(inbox, unread, emails);
    }

    method HandleViewEmail(inbox: Inbox, emailId: int) returns (response: Response)
      requires repo.Valid()
      modifies repo
      ensures repo.Valid()
      ensures (repo.db, response) == Serve(old(repo.db), inbox, ViewEmail(emailId))
    {
      if emailId <= 0 {
        return BadRequest;
      }
      var found := repo.GetEmailByID(inbox.id, emailId);
      if found.Err? {
        return NotFoundPage;
      }
      var email := found.value;
      if !email.isRead {
        var _ := repo.MarkEmailAsRead(email.id);
        email := email.(isRead := true);
      }
      var attachments := repo.GetAttachmentsByEmailID(email.id);
      response := MessagePage(inbox, email, attachments);
    }

    method HandleAttachment(inbox: Inbox, emailId: int, attachmentId: int) returns (response: Response)
      requires repo.Valid()
      ensures response == Serve(repo.db, inbox, Download(emailId, attachmentId)).1
    {
      if emailId <= 0 || attachmentId <= 0 {
        return BadRequest;
      }
      var email := repo.GetEmailByID(inbox.id, emailId);
      if email.Err? {
        return NotFoundPage;
      }
      var attachment := repo.GetAttachment(attachmentId);
      if attachment.Err? || attachment.value.emailId != email.value.id {
        return NotFoundPage;
      }
      var row := attachment.value;
      response := File(row.filename, row.contentType, row.sizeBytes, row.content);
    }

    method HandleDeleteEmail(inbox: Inbox, emailId: int) returns (response: Response)
      requires repo.Valid()
      modifies repo
      ensures repo.Valid()
      ensures (repo.db, response) == Serve(old(repo.db), inbox, Discard(emailId))
    {
      if emailId <= 0 {
        return BadRequest;
      }
      var result := repo.DeleteEmail(inbox.id, emailId);
      response := if result.Ok? then Redirect("/app") else NotFoundPage;
    }

    method HandleAPIEmails(inbox: Inbox) returns (response: Response)
      requires repo.Valid()
      ensures response == Serve(repo.db, inbox, ApiEmails).1
    {
      var emails := repo.GetEmailsByInboxID(inbox.id, 50, 0);
      var unread := repo.GetUnreadCount(inbox.id);
      var listed := [];
      for i := 0 to |emails|
        invariant listed == Summaries(emails)[..i]
      {
        listed := listed + [Summary(emails[i])];
      }
      response := Api(inbox.address, inbox.expiresAt, unread, listed);
    }

    // MailboxAuthMiddleware around the /app routes. `now` and `slidAt` are its clock readings.
    method HandleApp(token: string, request: Request, now: int, slidAt: int) returns (response: Response)
      requires repo.Valid()
      modifies repo
      ensures repo.Valid()
      ensures (repo.db, response) == Authenticated(old(repo.db), token, request, now, slidAt, sessionTTL)
    {
      if token == "" {
        return AuthRequired;
      }
      var found := repo.GetSession(token, now);
      if found.Err? {
        return AuthRequired;
      }
      var (session, inbox) := found.value;
      var _ := repo.TouchSession(session.token, slidAt + sessionTTL);
      var _ := repo.UpdateLastAccessed(inbox.id, slidAt);
      match request
      case Index => response := HandleIndex(inbox);
      case ViewEmail(emailId) => response := HandleViewEmail(inbox, emailId);
      case Download(emailId, attachmentId) => response := HandleAttachment(inbox, emailId, attachmentId);
      case Discard(emailId) => response := HandleDeleteEmail(inbox, emailId);
      case ApiEmails => response := HandleAPIEmails(inbox);
    }
  }
}
