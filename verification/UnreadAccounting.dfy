/** Where the unread count of an inbox comes from, over every run. */
module UnreadAccounting {
  import opened Schema
  import opened StoreRuns
  import opened Outcome

  // Deliveries of unread mail, first views, and deletions of unread mail.
  datatype Tally = Tally(delivered: nat, viewed: nat, discarded: nat)

  function Counted(condition: bool): nat { if condition then 1 else 0 }

  function StepTally(db: Db, op: Op, inboxId: int): Tally {
    match op
    case SaveEmail(email) =>
      Tally(Counted(email.inboxId == inboxId && inboxId in db.inboxes && !email.isRead), 0, 0)
    case SaveInboundMessage(email, attachments, faults) =>
      Tally(Counted(email.inboxId == inboxId && SaveSucceeds(db, email, attachments, faults) && !email.isRead), 0, 0)
    case MarkEmailAsRead(emailId) => Tally(0, Counted(emailId in UnreadIds(db, inboxId)), 0)
    case DeleteEmail(owner, emailId) => Tally(0, 0, Counted(owner == inboxId && emailId in UnreadIds(db, inboxId)))
    case _ => Tally(0, 0, 0)
  }

  function RunTally(db: Db, ops: seq<Op>, inboxId: int): Tally
    decreases |ops|
  {
    if ops == [] then Tally(0, 0, 0) else
    var first, rest := StepTally(db, ops[0], inboxId), RunTally(Apply(db, ops[0]), ops[1..], inboxId);
    Tally(first.delivered + rest.delivered, first.viewed + rest.viewed, first.discarded + rest.discarded)
  }

  lemma InsertEmailTally(db: Db, email: Email, inboxId: int)
    requires Keyed(db)
    ensures UnreadCount(InsertEmail(db, email).0, inboxId)
         == UnreadCount(db, inboxId) + Counted(email.inboxId == inboxId && inboxId in db.inboxes && !email.isRead)
  {
    var after := InsertEmail(db, email).0;
    if email.inboxId == inboxId && inboxId in db.inboxes && !email.isRead {
      assert UnreadIds(after, inboxId) == UnreadIds(db, inboxId) + {db.nextEmail};
    } else {
      assert UnreadIds(after, inboxId) == UnreadIds(db, inboxId);
    }
  }

  lemma SaveMessageTally(db: Db, email: Email, attachments: seq<Attachment>, faults: set<nat>, inboxId: int)
    requires Keyed(db)
    ensures UnreadCount(SaveMessage(db, email, attachments, faults).0, inboxId)
         == UnreadCount(db, inboxId)
            + Counted(email.inboxId == inboxId && SaveSucceeds(db, email, attachments, faults) && !email.isRead)
  {
    if SaveSucceeds(db, email, attachments, faults) {
      InsertEmailTally(db, email, inboxId);
      assert UnreadIds(StoredMessage(db, email, attachments), inboxId) == UnreadIds(InsertEmail(db, email).0, inboxId);
    }
  }

  lemma MarkReadTally(db: Db, emailId: int, inboxId: int)
    ensures UnreadCount(MarkRead(db, emailId).0, inboxId) + Counted(emailId in UnreadIds(db, inboxId))
         == UnreadCount(db, inboxId)
  {
    assert UnreadIds(MarkRead(db, emailId).0, inboxId) == UnreadIds(db, inboxId) - {emailId};
  }

  lemma RemoveEmailTally(db: Db, owner: int, emailId: int, inboxId: int)
    ensures UnreadCount(RemoveEmail(db, owner, emailId).0, inboxId)
            + Counted(owner == inboxId && emailId in UnreadIds(db, inboxId))
         == UnreadCount(db, inboxId)
  {
    var after := RemoveEmail(db, owner, emailId).0;
    if owner == inboxId {
      assert UnreadIds(after, inboxId) == UnreadIds(db, inboxId) - {emailId};
    } else {
      assert UnreadIds(after, inboxId) == UnreadIds(db, inboxId);
    }
  }

  lemma RemoveInboxesTally(db: Db, doomed: set<int>, inboxId: int)
    requires inboxId !in doomed
    ensures UnreadCount(RemoveInboxes(db, doomed), inboxId) == UnreadCount(db, inboxId)
  {
    assert UnreadIds(RemoveInboxes(db, doomed), inboxId) == UnreadIds(db, inboxId);
  }

  lemma StepBalances(db: Db, op: Op, inboxId: int)
    requires Consistent(db)
    requires inboxId in db.inboxes ==> inboxId in Apply(db, op).inboxes
    ensures var tally := StepTally(db, op, inboxId);
            UnreadCount(Apply(db, op), inboxId) + tally.viewed + tally.discarded
            == UnreadCount(db, inboxId) + tally.delivered
  {
    match op
    case SaveEmail(email) => InsertEmailTally(db, email, inboxId);
    case SaveInboundMessage(email, attachments, faults) => SaveMessageTally(db, email, attachments, faults, inboxId);
    case MarkEmailAsRead(emailId) => MarkReadTally(db, emailId, inboxId);
    case DeleteEmail(owner, emailId) => RemoveEmailTally(db, owner, emailId, inboxId);
    case DeleteExpiredInboxes(now) =>
      RemoveInboxesTally(db, ExpiredInboxes(db, now), inboxId);
    case _ => assert Apply(db, op).emails == db.emails;
  }

  /** If the inbox is there at the end, its unread count has moved by exactly the unread mail
      delivered, less the first views, less the unread mail deleted. */
  lemma {:induction false} UnreadBalances(db: Db, ops: seq<Op>, inboxId: int)
    requires Consistent(db) && inboxId in Exec(db, ops).inboxes
    ensures var tally := RunTally(db, ops, inboxId);
            UnreadCount(Exec(db, ops), inboxId)
            == UnreadCount(db, inboxId) + tally.delivered - tally.viewed - tally.discarded
    decreases |ops|
  {
    if ops != [] {
      var next := Apply(db, ops[0]);
      StepKeepsConsistent(db, ops[0]);
      StepEvolves(db, ops[0]);
      RunIsSound(next, ops[1..]);
      StepBalances(db, ops[0], inboxId);
      UnreadBalances(next, ops[1..], inboxId);
    }
  }
}
