/** The ordered queries of internal/repository/sqlite.go, and what a delivery leaves to read. */
module Queries {
  import opened Outcome
  import opened Schema
  import opened StoreRuns
  import opened Ordering

  // ORDER BY received_at DESC, id DESC
  predicate NewestFirst(a: Email, b: Email) {
    a.receivedAt > b.receivedAt || (a.receivedAt == b.receivedAt && a.id > b.id)
  }

  // ORDER BY id ASC
  predicate ById(a: Attachment, b: Attachment) { a.id < b.id }

  function EmailsOf(db: Db, inboxId: int): set<Email> {
    set i | i in db.emails && db.emails[i].inboxId == inboxId :: db.emails[i]
  }

  function AttachmentsOf(db: Db, emailId: int): set<Attachment> {
    set i | i in db.attachments && db.attachments[i].emailId == emailId :: db.attachments[i]
  }

  lemma EmailsAreOrdered(db: Db, inboxId: int)
    requires Keyed(db)
    ensures Orders(NewestFirst, EmailsOf(db, inboxId))
  {}

  lemma AttachmentsAreOrdered(db: Db, emailId: int)
    requires Keyed(db)
    ensures Orders(ById, AttachmentsOf(db, emailId))
  {}

  /** All emails of an inbox, newest first. */
  function Listing(db: Db, inboxId: int): seq<Email>
    requires Keyed(db)
  {
    EmailsAreOrdered(db, inboxId);
    Arrange(NewestFirst, EmailsOf(db, inboxId))
  }

  function ListedAttachments(db: Db, emailId: int): seq<Attachment>
    requires Keyed(db)
  {
    AttachmentsAreOrdered(db, emailId);
    Arrange(ById, AttachmentsOf(db, emailId))
  }

  // LIMIT limit OFFSET offset, with the defaults GetEmailsByInboxID puts in.
  function Window<T>(rows: seq<T>, limit: int, offset: int): seq<T> {
    var limit := if limit <= 0 then 50 else limit;
    var offset := if offset < 0 then 0 else offset;
    if |rows| <= offset then []
    else if |rows| <= offset + limit then rows[offset..]
    else rows[offset..offset + limit]
  }

  function EmailPage(db: Db, inboxId: int, limit: int, offset: int): seq<Email>
    requires Keyed(db)
  {
    Window(Listing(db, inboxId), limit, offset)
  }

  // ----- Paging -----

  // The first `count` pages of size `limit`, one after the other.
  function Pages(db: Db, inboxId: int, limit: int, count: nat): seq<Email>
    requires Keyed(db)
  {
    if count == 0 then []
    else Pages(db, inboxId, limit, count - 1) + EmailPage(db, inboxId, limit, (count - 1) * limit)
  }

  lemma {:induction false} PagesArePrefix(db: Db, inboxId: int, limit: int, count: nat)
    requires Keyed(db) && 0 < limit
    ensures var all := Listing(db, inboxId);
            Pages(db, inboxId, limit, count) == if |all| <= count * limit then all else all[..count * limit]
  {
    if count != 0 {
      PagesArePrefix(db, inboxId, limit, count - 1);
      assert count * limit == (count - 1) * limit + limit;
    }
  }

  /** Pages at offsets 0, limit, 2 * limit, … give every email of the inbox exactly once,
      newest first, as soon as they reach far enough. */
  lemma {:induction false} PagesCoverTheInbox(db: Db, inboxId: int, limit: int, count: nat)
    requires Keyed(db) && 0 < limit && |Listing(db, inboxId)| <= count * limit
    ensures var pages := Pages(db, inboxId, limit, count);
            && (forall i, j :: 0 <= i < j < |pages| ==>
                  pages[i].receivedAt > pages[j].receivedAt
                  || (pages[i].receivedAt == pages[j].receivedAt && pages[i].id > pages[j].id))
            && (forall e :: e in pages <==> e.id in db.emails && db.emails[e.id] == e && e.inboxId == inboxId)
  {
    PagesArePrefix(db, inboxId, limit, count);
    EmailsAreOrdered(db, inboxId);
    assert forall e :: e in EmailsOf(db, inboxId)
                  <==> e.id in db.emails && db.emails[e.id] == e && e.inboxId == inboxId;
  }

  /** A page is the stretch of the listing that starts at `offset` and has `limit` rows, as far as there are
      any; without a limit it has 50, and a negative offset is none. */
  lemma PageIsStretch(db: Db, inboxId: int, limit: int, offset: int)
    requires Keyed(db)
    ensures var all, page := Listing(db, inboxId), EmailPage(db, inboxId, limit, offset);
            var first, size := if offset < 0 then 0 else offset, if limit <= 0 then 50 else limit;
            && |page| == (if |all| <= first then 0 else if |all| - first <= size then |all| - first else size)
            && forall k :: 0 <= k < |page| ==> page[k] == all[first + k]
  {}

  /** The newest emails of the inbox, newest first, up to `limit` of them. */
  ghost predicate Newest(db: Db, inboxId: int, limit: nat, page: seq<Email>) {
    && |page| <= limit
    && (forall e <- page :: e.id in db.emails && db.emails[e.id] == e && e.inboxId == inboxId)
    && (forall i, j :: 0 <= i < j < |page| ==>
          page[i].receivedAt > page[j].receivedAt
          || (page[i].receivedAt == page[j].receivedAt && page[i].id > page[j].id))
    && (forall id <- db.emails :: db.emails[id].inboxId == inboxId && db.emails[id] !in page ==>
          |page| == limit
          && forall e <- page :: e.receivedAt > db.emails[id].receivedAt
                                 || (e.receivedAt == db.emails[id].receivedAt && e.id > id))
  }

  lemma FirstPageIsNewest(db: Db, inboxId: int, limit: nat)
    requires Keyed(db) && 0 < limit
    ensures Newest(db, inboxId, limit, EmailPage(db, inboxId, limit, 0))
  {
    EmailsAreOrdered(db, inboxId);
    var all, page := Listing(db, inboxId), EmailPage(db, inboxId, limit, 0);
    assert forall e :: e in EmailsOf(db, inboxId) <==> e in all;
    assert page == if |all| <= limit then all else all[..limit];
    forall e | e in page ensures e.id in db.emails && db.emails[e.id] == e && e.inboxId == inboxId {
      assert e in all;
    }
    forall id | id in db.emails && db.emails[id].inboxId == inboxId && db.emails[id] !in page
      ensures |page| == limit
      ensures forall e <- page :: NewestFirst(e, db.emails[id])
    {
      assert db.emails[id] in EmailsOf(db, inboxId);
      var k :| 0 <= k < |all| && all[k] == db.emails[id];
      forall e | e in page ensures NewestFirst(e, db.emails[id]) {
        var j :| 0 <= j < |page| && page[j] == e;
        assert all[j] == e;
      }
    }
  }

  // ----- What a delivery leaves -----

  predicate Holds(table: map<int, Attachment>, id: int, row: Attachment) {
    id in table && table[id] == row
  }

  // `table` is `before` followed by the attachments of one new email.
  ghost predicate Appended(before: map<int, Attachment>, table: map<int, Attachment>, first: int, emailId: int,
                           list: seq<Attachment>) {
    && (forall i <- table :: i in before || (0 <= i - first < |list| && table[i].emailId == emailId))
    && (forall i <- before :: Holds(table, i, before[i]) && before[i].emailId != emailId)
    && (forall k :: 0 <= k < |list| ==> Holds(table, first + k, list[k]))
    && (forall k :: 0 <= k < |list| ==> list[k].id == first + k && list[k].emailId == emailId)
  }

  lemma NewRows(before: map<int, Attachment>, db: Db, first: int, emailId: int, list: seq<Attachment>)
    requires Appended(before, db.attachments, first, emailId, list)
    ensures Arranged(ById, AttachmentsOf(db, emailId), list)
  {
    forall a ensures a in AttachmentsOf(db, emailId) <==> a in list {
      if a in AttachmentsOf(db, emailId) {
        var i :| i in db.attachments && db.attachments[i] == a && a.emailId == emailId;
        assert Holds(db.attachments, first + (i - first), list[i - first]);
      }
      if a in list {
        var k :| 0 <= k < |list| && list[k] == a;
        assert Holds(db.attachments, first + k, list[k]);
      }
    }
  }

  lemma OldRows(db: Db, after: Db, first: int, newEmail: int, list: seq<Attachment>, emailId: int)
    requires Appended(db.attachments, after.attachments, first, newEmail, list) && emailId != newEmail
    ensures AttachmentsOf(after, emailId) == AttachmentsOf(db, emailId)
  {
    forall i | i in db.attachments ensures Holds(after.attachments, i, db.attachments[i]) {}
  }

  // The attachments of a delivered message, in submitted order under fresh ids.
  function Delivered(attachments: seq<Attachment>, first: int, emailId: int): (list: seq<Attachment>)
    ensures |list| == |attachments|
    ensures forall k :: 0 <= k < |list| ==> list[k] == attachments[k].(id := first + k, emailId := emailId)
  {
    seq(|attachments|, k requires 0 <= k < |attachments| => attachments[k].(id := first + k, emailId := emailId))
  }

  lemma RowsAppend(before: map<int, Attachment>, rows: map<int, Attachment>, first: int, emailId: int,
                   list: seq<Attachment>)
    requires forall i <- before :: i < first && before[i].emailId != emailId
    requires forall i :: i in rows <==> 0 <= i - first < |list|
    requires forall i <- rows :: rows[i] == list[i - first]
    requires forall k :: 0 <= k < |list| ==> list[k].id == first + k && list[k].emailId == emailId
    ensures Appended(before, before + rows, first, emailId, list)
  {
    forall k | 0 <= k < |list| ensures Holds(before + rows, first + k, list[k]) {
      assert first + k in rows;
    }
  }

  lemma StoredAttachmentTable(db: Db, emailId: int, attachments: seq<Attachment>)
    requires forall i <- db.attachments :: i < db.nextAttachment && db.attachments[i].emailId != emailId
    ensures Appended(db.attachments, StoredAttachments(db, emailId, attachments).attachments,
                     db.nextAttachment, emailId, Delivered(attachments, db.nextAttachment, emailId))
  {
    var rows := AttachmentRows(db.nextAttachment, emailId, attachments);
    AttachmentRowAt(db.nextAttachment, emailId, attachments);
    RowsAppend(db.attachments, rows, db.nextAttachment, emailId, Delivered(attachments, db.nextAttachment, emailId));
  }

  lemma DeliveredAttachments(db: Db, after: Db, first: int, newEmail: int, attachments: seq<Attachment>)
    requires Keyed(db) && Keyed(after) && newEmail !in db.emails
    requires Appended(db.attachments, after.attachments, first, newEmail, Delivered(attachments, first, newEmail))
    ensures ListedAttachments(after, newEmail) == Delivered(attachments, first, newEmail)
    ensures forall i <- db.emails :: ListedAttachments(after, i) == ListedAttachments(db, i)
  {
    var list := Delivered(attachments, first, newEmail);
    NewRows(db.attachments, after, first, newEmail, list);
    AttachmentsAreOrdered(after, newEmail);
    ArrangedIsUnique(ById, AttachmentsOf(after, newEmail), list);
    forall i | i in db.emails ensures ListedAttachments(after, i) == ListedAttachments(db, i) {
      OldRows(db, after, first, newEmail, list, i);
    }
  }

  /** A saved message is one new email, read or unread as submitted, under a fresh id;
      nothing but the email and attachment tables and their counters changes. */
  lemma DeliveryAddsOneEmail(db: Db, email: Email, attachments: seq<Attachment>)
    requires Consistent(db) && email.inboxId in db.inboxes
    ensures var after := StoredMessage(db, email, attachments);
            var id := db.nextEmail;
            && id !in db.emails
            && after.emails.Keys == db.emails.Keys + {id}
            && after.emails[id] == email.(id := id, subject := after.emails[id].subject)
            && after.emails[id].subject == (if email.subject == "" then "(no subject)" else email.subject)
            && (forall i <- db.emails :: after.emails[i] == db.emails[i])
            && after == db.(emails := after.emails, attachments := after.attachments,
                            nextEmail := id + 1, nextAttachment := db.nextAttachment + |attachments|)
  {}

  /** The new email's attachments read back as submitted and in submitted order, and those of
      every other email read back as before. */
  lemma DeliveryReadsBack(db: Db, email: Email, attachments: seq<Attachment>)
    requires Consistent(db) && email.inboxId in db.inboxes
    ensures Keyed(StoredMessage(db, email, attachments))
    ensures var after := StoredMessage(db, email, attachments);
            && ListedAttachments(after, db.nextEmail) == Delivered(attachments, db.nextAttachment, db.nextEmail)
            && forall i <- db.emails :: ListedAttachments(after, i) == ListedAttachments(db, i)
  {
    var inserted := InsertEmail(db, email).0;
    InsertEmailKeepsConsistent(db, email);
    StoreAttachmentsKeepsConsistent(inserted, db.nextEmail, attachments);
    StoredAttachmentTable(inserted, db.nextEmail, attachments);
    DeliveredAttachments(db, StoredAttachments(inserted, db.nextEmail, attachments), db.nextAttachment, db.nextEmail,
                         attachments);
  }
}
