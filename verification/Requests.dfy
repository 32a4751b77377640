/** What each request of the mailbox area answers and leaves, in terms of the tables. */
module Requests {
  import opened Outcome
  import opened Clock
  import opened Schema
  import opened StoreRuns
  import opened Queries
  import opened Mailbox

  predicate Owns(db: Db, inboxId: int, emailId: int) {
    emailId in db.emails && db.emails[emailId].inboxId == inboxId
  }

  // ----- The handlers, for an inbox -----

  lemma DiscardServed(db: Db, inbox: Inbox, emailId: int)
    requires Consistent(db)
    ensures var (after, response) := Serve(db, inbox, Discard(emailId));
            && (emailId <= 0 ==> after == db && response == BadRequest)
            && (0 < emailId && !Owns(db, inbox.id, emailId) ==> after == db && response == NotFoundPage)
            && (0 < emailId && Owns(db, inbox.id, emailId) ==>
                  && response == Redirect("/app")
                  && after == db.(emails := db.emails - {emailId}, attachments := after.attachments)
                  && (forall i :: i in after.attachments
                             <==> i in db.attachments && db.attachments[i].emailId != emailId)
                  && (forall i <- after.attachments :: after.attachments[i] == db.attachments[i]))
  {}

  /** All attachments of the email, by ascending id. */
  ghost predicate AttachmentsListed(db: Db, emailId: int, list: seq<Attachment>) {
    && (forall i, j :: 0 <= i < j < |list| ==> list[i].id < list[j].id)
    && (forall a :: a in list <==> a.id in db.attachments && db.attachments[a.id] == a && a.emailId == emailId)
  }

  lemma ListingIsComplete(db: Db, emailId: int)
    requires Keyed(db)
    ensures AttachmentsListed(db, emailId, ListedAttachments(db, emailId))
  {
    AttachmentsAreOrdered(db, emailId);
    assert forall a :: a in AttachmentsOf(db, emailId)
                  <==> a.id in db.attachments && db.attachments[a.id] == a && a.emailId == emailId;
  }

  lemma ViewServed(db: Db, inbox: Inbox, emailId: int)
    requires Consistent(db)
    ensures var (after, response) := Serve(db, inbox, ViewEmail(emailId));
            && (emailId <= 0 ==> after == db && response == BadRequest)
            && (0 < emailId && !Owns(db, inbox.id, emailId) ==> after == db && response == NotFoundPage)
            && (0 < emailId && Owns(db, inbox.id, emailId) ==>
                  && response.MessagePage? && response.reader == inbox
                  && response.email == db.emails[emailId].(isRead := true)
                  && AttachmentsListed(db, emailId, response.attachments)
                  && after == db.(emails := db.emails[emailId := db.emails[emailId].(isRead := true)]))
  {
    if 0 < emailId && Owns(db, inbox.id, emailId) {
      MarkReadKeepsKeys(db, emailId);
      ListingIsComplete(Serve(db, inbox, ViewEmail(emailId)).0, emailId);
      if db.emails[emailId].isRead {
        assert db.emails[emailId := db.emails[emailId].(isRead := true)] == db.emails;
      }
    }
  }

  lemma DownloadServed(db: Db, inbox: Inbox, emailId: int, attachmentId: int)
    requires Consistent(db)
    ensures var (after, response) := Serve(db, inbox, Download(emailId, attachmentId));
            && after == db
            && response == (if emailId <= 0 || attachmentId <= 0 then BadRequest
                            else if Owns(db, inbox.id, emailId) && attachmentId in db.attachments
                                    && db.attachments[attachmentId].emailId == emailId
                            then File(db.attachments[attachmentId].filename, db.attachments[attachmentId].contentType,
                                      db.attachments[attachmentId].sizeBytes, db.attachments[attachmentId].content)
                            else NotFoundPage)
  {}

  lemma IndexServed(db: Db, inbox: Inbox)
    requires Consistent(db)
    ensures var (after, response) := Serve(db, inbox, Index);
            && after == db && response.InboxPage? && response.inbox == inbox
            && response.unread
               == |set i | i in db.emails && db.emails[i].inboxId == inbox.id && !db.emails[i].isRead|
            && Newest(db, inbox.id, 50, response.emails)
  {
    FirstPageIsNewest(db, inbox.id, 50);
  }

  // The row as the API shows it.
  predicate Shows(shown: ApiEmail, row: Email) {
    && shown.id == row.id && shown.sender == row.sender && shown.senderName == row.senderName
    && shown.subject == row.subject && shown.hasAttachments == row.hasAttachments && shown.isRead == row.isRead
    && shown.receivedAt == row.receivedAt
  }

  ghost predicate ShowsAll(listed: seq<ApiEmail>, rows: seq<Email>) {
    |listed| == |rows| && forall i :: 0 <= i < |listed| ==> Shows(listed[i], rows[i])
  }

  lemma ApiServed(db: Db, inbox: Inbox)
    requires Consistent(db)
    ensures var (after, response) := Serve(db, inbox, ApiEmails);
            && after == db && response.Api?
            && response.address == inbox.address && response.expiresAt == inbox.expiresAt
            && response.unreadCount
               == |set i | i in db.emails && db.emails[i].inboxId == inbox.id && !db.emails[i].isRead|
            && exists rows :: Newest(db, inbox.id, 50, rows) && ShowsAll(response.listed, rows)
  {
    FirstPageIsNewest(db, inbox.id, 50);
    assert ShowsAll(Summaries(EmailPage(db, inbox.id, 50, 0)), EmailPage(db, inbox.id, 50, 0));
  }

  // ----- The requests, with a live session -----

  /** The session has not expired; its inbox is `inbox`. */
  predicate Live(db: Db, token: string, now: int, inbox: Inbox) {
    && token != "" && token in db.sessions && Unix(now) < db.sessions[token].expiresAt
    && db.sessions[token].inboxId in db.inboxes && inbox == db.inboxes[db.sessions[token].inboxId]
  }

  /** All tables but the mail: the session's expiry and the inbox's access time have moved. */
  ghost predicate Slid(db: Db, after: Db, token: string, inbox: Inbox, slidAt: int, ttl: int)
    requires token in db.sessions
  {
    after == db.(sessions := db.sessions[token := db.sessions[token].(expiresAt := Unix(slidAt + ttl))],
                 inboxes := db.inboxes[inbox.id := inbox.(lastAccessedAt := Unix(slidAt))],
                 emails := after.emails, attachments := after.attachments)
  }

  lemma LiveIsServed(db: Db, token: string, request: Request, now: int, slidAt: int, ttl: int, inbox: Inbox)
    requires Consistent(db) && Live(db, token, now, inbox)
    ensures var slid := Slide(db, token, inbox.id, slidAt, ttl);
            && Consistent(slid) && Slid(db, slid, token, inbox, slidAt, ttl)
            && slid.emails == db.emails && slid.attachments == db.attachments
            && Authenticated(db, token, request, now, slidAt, ttl) == Serve(slid, inbox, request)
  {
    SlideKeepsConsistent(db, token, inbox.id, slidAt, ttl);
  }

  /** Deleting: exactly the inbox's own email and its attachments go, and the user is sent to the inbox; for any
      other id nothing goes and none is found. */
  lemma DiscardRemoves(db: Db, token: string, emailId: int, now: int, slidAt: int, ttl: int, inbox: Inbox)
    requires Consistent(db) && Live(db, token, now, inbox)
    ensures var (after, response) := Authenticated(db, token, Discard(emailId), now, slidAt, ttl);
            var own := 0 < emailId && Owns(db, inbox.id, emailId);
            && Slid(db, after, token, inbox, slidAt, ttl)
            && response == (if emailId <= 0 then BadRequest else if own then Redirect("/app") else NotFoundPage)
            && after.emails == (if own then db.emails - {emailId} else db.emails)
            && (forall i :: i in after.attachments
                       <==> i in db.attachments && !(own && db.attachments[i].emailId == emailId))
            && (forall i <- after.attachments :: after.attachments[i] == db.attachments[i])
  {
    LiveIsServed(db, token, Discard(emailId), now, slidAt, ttl, inbox);
    DiscardServed(Slide(db, token, inbox.id, slidAt, ttl), inbox, emailId);
  }

  /** Viewing: the inbox's own email is shown as read, with all its attachments in order, and is read from then
      on; nothing else of the mail changes. */
  lemma ViewShows(db: Db, token: string, emailId: int, now: int, slidAt: int, ttl: int, inbox: Inbox)
    requires Consistent(db) && Live(db, token, now, inbox)
    ensures var (after, response) := Authenticated(db, token, ViewEmail(emailId), now, slidAt, ttl);
            var own := 0 < emailId && Owns(db, inbox.id, emailId);
            && Slid(db, after, token, inbox, slidAt, ttl) && after.attachments == db.attachments
            && (emailId <= 0 ==> response == BadRequest)
            && (0 < emailId && !own ==> response == NotFoundPage)
            && (!own ==> after.emails == db.emails)
            && (own ==>
                  && after.emails == db.emails[emailId := db.emails[emailId].(isRead := true)]
                  && response.MessagePage? && response.reader == inbox
                  && response.email == db.emails[emailId].(isRead := true)
                  && AttachmentsListed(db, emailId, response.attachments))
  {
    LiveIsServed(db, token, ViewEmail(emailId), now, slidAt, ttl, inbox);
    ViewServed(Slide(db, token, inbox.id, slidAt, ttl), inbox, emailId);
  }

  /** Downloading: the four fields of the row, if it is an attachment of the named email and that is the
      inbox's own; otherwise it is not found. The mail does not change. */
  lemma DownloadServes(db: Db, token: string, emailId: int, attachmentId: int, now: int, slidAt: int, ttl: int,
                       inbox: Inbox)
    requires Consistent(db) && Live(db, token, now, inbox)
    ensures var (after, response) := Authenticated(db, token, Download(emailId, attachmentId), now, slidAt, ttl);
            && Slid(db, after, token, inbox, slidAt, ttl)
            && after.emails == db.emails && after.attachments == db.attachments
            && response == (if emailId <= 0 || attachmentId <= 0 then BadRequest
                            else if Owns(db, inbox.id, emailId) && attachmentId in db.attachments
                                    && db.attachments[attachmentId].emailId == emailId
                            then File(db.attachments[attachmentId].filename, db.attachments[attachmentId].contentType,
                                      db.attachments[attachmentId].sizeBytes, db.attachments[attachmentId].content)
                            else NotFoundPage)
  {
    LiveIsServed(db, token, Download(emailId, attachmentId), now, slidAt, ttl, inbox);
    DownloadServed(Slide(db, token, inbox.id, slidAt, ttl), inbox, emailId, attachmentId);
  }

  /** The index: the inbox, the number of its unread emails and its newest 50. The mail does not change. */
  lemma IndexShows(db: Db, token: string, now: int, slidAt: int, ttl: int, inbox: Inbox)
    requires Consistent(db) && Live(db, token, now, inbox)
    ensures var (after, response) := Authenticated(db, token, Index, now, slidAt, ttl);
            && Slid(db, after, token, inbox, slidAt, ttl)
            && after.emails == db.emails && after.attachments == db.attachments
            && response.InboxPage? && response.inbox == inbox
            && response.unread
               == |set i | i in db.emails && db.emails[i].inboxId == inbox.id && !db.emails[i].isRead|
            && Newest(db, inbox.id, 50, response.emails)
  {
    LiveIsServed(db, token, Index, now, slidAt, ttl, inbox);
    IndexServed(Slide(db, token, inbox.id, slidAt, ttl), inbox);
  }

  /** The API: address and expiry of the inbox, the number of its unread emails, and its newest 50, field by
      field. The mail does not change. */
  lemma ApiShows(db: Db, token: string, now: int, slidAt: int, ttl: int, inbox: Inbox)
    requires Consistent(db) && Live(db, token, now, inbox)
    ensures var (after, response) := Authenticated(db, token, ApiEmails, now, slidAt, ttl);
            && Slid(db, after, token, inbox, slidAt, ttl)
            && after.emails == db.emails && after.attachments == db.attachments
            && response.Api? && response.address == inbox.address && response.expiresAt == inbox.expiresAt
            && response.unreadCount
               == |set i | i in db.emails && db.emails[i].inboxId == inbox.id && !db.emails[i].isRead|
            && exists rows :: Newest(db, inbox.id, 50, rows) && ShowsAll(response.listed, rows)
  {
    LiveIsServed(db, token, ApiEmails, now, slidAt, ttl, inbox);
    var slid := Slide(db, token, inbox.id, slidAt, ttl);
    ApiServed(slid, inbox);
    var rows :| Newest(slid, inbox.id, 50, rows) && ShowsAll(Serve(slid, inbox, ApiEmails).1.listed, rows);
    assert Newest(db, inbox.id, 50, rows);
  }

  /** Without a live session a request changes nothing and is answered by the demand to log in. */
  lemma OthersAreTurnedAway(db: Db, token: string, request: Request, now: int, slidAt: int, ttl: int)
    requires Consistent(db) && forall inbox :: !Live(db, token, now, inbox)
    ensures Authenticated(db, token, request, now, slidAt, ttl) == (db, AuthRequired)
  {
    if token in db.sessions && db.sessions[token].inboxId in db.inboxes {
      assert !Live(db, token, now, db.inboxes[db.sessions[token].inboxId]);
    }
  }
}
