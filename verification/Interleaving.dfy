/** Handlers are several statements, and anything can happen between two of them. The rows a
    handler remembers may be gone by then, but they never turn into somebody else's. */
module Interleaving {
  import opened Outcome
  import opened Text
  import opened Schema
  import opened StoreRuns
  import opened Queries
  import opened Isolation

  // An email found for an inbox is, after any run, that inbox's or gone.
  lemma {:induction false} EmailKeepsOwner(db: Db, ops: seq<Op>, inboxId: int, emailId: int)
    requires Consistent(db) && FindEmail(db, inboxId, emailId).Ok?
    ensures Consistent(Exec(db, ops))
    ensures emailId in Exec(db, ops).emails ==> Exec(db, ops).emails[emailId].inboxId == inboxId
  {
    RunIsSound(db, ops);
  }

  /** HandleViewEmail with arbitrary operations between its statements: marking the email it
      found either does nothing or marks that inbox's own email, and touches no other inbox. */
  lemma {:induction false} LateMarkIsHarmless(db: Db, ops: seq<Op>, inboxId: int, emailId: int)
    requires Consistent(db) && FindEmail(db, inboxId, emailId).Ok?
    ensures MarkRead(Exec(db, ops), emailId).1.Err? ==> MarkRead(Exec(db, ops), emailId).0 == Exec(db, ops)
    ensures MarkRead(Exec(db, ops), emailId).1.Ok? ==> emailId in OwnEmails(Exec(db, ops), inboxId)
    ensures forall other :: other != inboxId ==> SameSlice(MarkRead(Exec(db, ops), emailId).0, Exec(db, ops), other)
  {
    EmailKeepsOwner(db, ops, inboxId, emailId);
    var later := Exec(db, ops);
    if emailId in later.emails {
      assert emailId in OwnEmails(later, inboxId);
      MarkReadStaysHome(later, inboxId, emailId);
    }
  }

  /** The attachments listed for the email found earlier are that inbox's own, or none. */
  lemma {:induction false} LateAttachmentsAreOwn(db: Db, ops: seq<Op>, inboxId: int, emailId: int)
    requires Consistent(db) && FindEmail(db, inboxId, emailId).Ok?
    ensures Consistent(Exec(db, ops))
    ensures forall a :: a in ListedAttachments(Exec(db, ops), emailId) ==>
              a.id in OwnAttachments(Exec(db, ops), inboxId) && OwnAttachments(Exec(db, ops), inboxId)[a.id] == a
  {
    EmailKeepsOwner(db, ops, inboxId, emailId);
    var later := Exec(db, ops);
    forall a | a in ListedAttachments(later, emailId)
      ensures a.id in OwnAttachments(later, inboxId) && OwnAttachments(later, inboxId)[a.id] == a
    {
      assert a in AttachmentsOf(later, emailId);
      var i :| i in later.attachments && later.attachments[i].emailId == emailId && later.attachments[i] == a;
      assert emailId in OwnEmails(later, inboxId);
    }
  }

  /** HandleAttachment: an attachment fetched by id alone after the ownership check on its
      email, and accepted because it names that email, belongs to that inbox. */
  lemma {:induction false} LateDownloadIsOwn(db: Db, ops: seq<Op>, inboxId: int, emailId: int, attachmentId: int)
    requires Consistent(db) && FindEmail(db, inboxId, emailId).Ok?
    ensures FindAttachment(Exec(db, ops), attachmentId).Ok?
              && FindAttachment(Exec(db, ops), attachmentId).value.emailId == emailId
            ==> attachmentId in OwnAttachments(Exec(db, ops), inboxId)
  {
    EmailKeepsOwner(db, ops, inboxId, emailId);
    var later := Exec(db, ops);
    if attachmentId in later.attachments && later.attachments[attachmentId].emailId == emailId {
      assert emailId in OwnEmails(later, inboxId);
    }
  }

  lemma AttachmentsStayHome(db: Db, emailId: int, attachments: seq<Attachment>, other: int)
    requires Keyed(db) && emailId !in OwnEmails(db, other)
    ensures SameSlice(StoredAttachments(db, emailId, attachments), db, other)
  {
    AttachmentRowAt(db.nextAttachment, emailId, attachments);
    assert OwnEmails(StoredAttachments(db, emailId, attachments), other) == OwnEmails(db, other);
  }

  lemma SaveStaysHome(db: Db, email: Email, attachments: seq<Attachment>, other: int)
    requires Consistent(db) && email.inboxId in db.inboxes && other != email.inboxId
    ensures SameSlice(StoredMessage(db, email, attachments), db, other)
  {
    InsertEmailSlice(db, email, other);
    InsertEmailKeepsConsistent(db, email);
    AttachmentsStayHome(InsertEmail(db, email).0, db.nextEmail, attachments, other);
  }

  /** DATA after RCPT: whatever happened in between (deletion, cleanup, registration of the same
      address again, other deliveries), the message is stored exactly when the inbox row found
      at RCPT is still there and no statement fails. It then goes into that row, which still has
      the address found at RCPT, as one new email; otherwise the database is left as it was.
      No other inbox is affected. */
  lemma {:induction false} LateDeliveryIsExact(db: Db, ops: seq<Op>, address: string, email: Email,
                                               attachments: seq<Attachment>, faults: set<nat>)
    requires Consistent(db) && FindInboxByAddress(db, address).Ok?
    requires email.inboxId == FindInboxByAddress(db, address).value.id
    ensures SaveMessage(Exec(db, ops), email, attachments, faults).1.Ok?
            <==> email.inboxId in Exec(db, ops).inboxes && forall f <- faults :: |attachments| + 3 <= f
    ensures SaveMessage(Exec(db, ops), email, attachments, faults).1.Err?
            ==> SaveMessage(Exec(db, ops), email, attachments, faults).0 == Exec(db, ops)
    ensures SaveMessage(Exec(db, ops), email, attachments, faults).1.Ok?
            ==> && EqualFold(Exec(db, ops).inboxes[email.inboxId].address, address)
                && Exec(db, ops).nextEmail !in OwnEmails(Exec(db, ops), email.inboxId)
                && OwnEmails(SaveMessage(Exec(db, ops), email, attachments, faults).0, email.inboxId).Keys
                   == OwnEmails(Exec(db, ops), email.inboxId).Keys + {Exec(db, ops).nextEmail}
    ensures forall other :: other != email.inboxId ==>
              SameSlice(SaveMessage(Exec(db, ops), email, attachments, faults).0, Exec(db, ops), other)
  {
    RunIsSound(db, ops);
    var later := Exec(db, ops);
    if SaveSucceeds(later, email, attachments, faults) {
      DeliveryAddsOneEmail(later, email, attachments);
      forall other | other != email.inboxId
        ensures SameSlice(SaveMessage(later, email, attachments, faults).0, later, other)
      {
        SaveStaysHome(later, email, attachments, other);
      }
    }
  }

  lemma NoSessionAppears(db: Db, op: Op, token: string)
    requires token !in db.sessions && (op.CreateSession? ==> op.token != token)
    ensures token !in Apply(db, op).sessions
  {}

  /** Logout wins over a request in flight: whatever statements follow it, the middleware's late
      TouchSession for the same token included, the token never opens a mailbox again (unless a login
      were to hand it out once more). */
  lemma {:induction false} LoggedOutForGood(db: Db, ops: seq<Op>, token: string, now: int)
    requires forall op <- ops :: op.CreateSession? ==> op.token != token
    ensures FindSession(Exec(RemoveSession(db, token).0, ops), token, now) == Err(NotFound)
  {
    StaysGone(RemoveSession(db, token).0, ops, token);
  }

  lemma {:induction false} StaysGone(db: Db, ops: seq<Op>, token: string)
    requires token !in db.sessions && forall op <- ops :: op.CreateSession? ==> op.token != token
    ensures token !in Exec(db, ops).sessions
    decreases |ops|
  {
    if ops != [] {
      NoSessionAppears(db, ops[0], token);
      StaysGone(Apply(db, ops[0]), ops[1..], token);
    }
  }
}
