/** What anybody else does, through the web or through SMTP, is invisible in one inbox but for the ids
    it uses up: ids are drawn from counters that all inboxes share. */
module NonInterference {
  import opened Outcome
  import opened Clock
  import opened Schema
  import opened StoreRuns
  import opened Queries
  import opened Mailbox
  import opened Isolation
  import opened Interleaving
  import SessionTraces

  // A request, a statement of anybody, or ids that are used up.
  datatype Step =
    | Request(visit: Visit)
    | Statement(op: Op)
    | Gap(emails: nat, attachments: nat)

  function Perform(db: Db, step: Step, ttl: int): (Db, Option<Response>)
    requires Consistent(db)
  {
    match step
    case Request(visit) => var (after, response) := After(db, visit, ttl); (after, Some(response))
    case Statement(op) => (Apply(db, op), None)
    case Gap(emails, attachments) =>
      (db.(nextEmail := db.nextEmail + emails, nextAttachment := db.nextAttachment + attachments), None)
  }

  lemma PerformKeepsConsistent(db: Db, step: Step, ttl: int)
    requires Consistent(db)
    ensures Consistent(Perform(db, step, ttl).0)
    ensures CountersGrow(db, Perform(db, step, ttl).0)
  {
    match step
    case Request(visit) =>
      RequestKeepsConsistent(db, visit.token, visit.request, visit.now, visit.slidAt, ttl);
      RequestsKeepCounters(db, visit, ttl);
    case Statement(op) =>
      StepKeepsConsistent(db, op);
      StepEvolves(db, op);
    case Gap(_, _) =>
  }

  lemma RequestsKeepCounters(db: Db, visit: Visit, ttl: int)
    requires Consistent(db)
    ensures var after := After(db, visit, ttl).0;
            && after.nextInbox == db.nextInbox && after.nextEmail == db.nextEmail
            && after.nextAttachment == db.nextAttachment && after.nextDomain == db.nextDomain
  {
    if visit.token != "" && FindSession(db, visit.token, visit.now).Ok? {
      var inbox := FindSession(db, visit.token, visit.now).value.1;
      SlideKeepsConsistent(db, visit.token, inbox.id, visit.slidAt, ttl);
      ServeFrame(Slide(db, visit.token, inbox.id, visit.slidAt, ttl), inbox, visit.request);
    }
  }

  // ----- Whose step it is -----

  /** The statement is about the inbox: its rows, or those of everybody that have expired. */
  predicate Concerns(db: Db, op: Op, inboxId: int) {
    match op
    case UpdateLastAccessed(id, _) => id == inboxId
    case DeleteExpiredInboxes(_) => true
    case SaveEmail(email) => email.inboxId == inboxId
    case SaveInboundMessage(email, _, _) => email.inboxId == inboxId
    case MarkEmailAsRead(emailId) => emailId in OwnEmails(db, inboxId)
    case DeleteEmail(id, _) => id == inboxId
    case SaveAttachment(attachment) => attachment.emailId in OwnEmails(db, inboxId)
    case CreateSession(_, id, _, _) => id == inboxId
    case DeleteSession(token) => token in OwnSessions(db, inboxId)
    case TouchSession(token, _) => token in OwnSessions(db, inboxId)
    case DeleteExpiredSessions(_) => true
    case _ => false
  }

  predicate Mine(db: Db, step: Step, inboxId: int) {
    match step
    case Request(visit) => visit.token in OwnSessions(db, inboxId)
    case Statement(op) => Concerns(db, op, inboxId)
    case Gap(_, _) => true
  }

  function Seen(db: Db, step: Step, ttl: int, inboxId: int): seq<Response>
    requires Consistent(db)
  {
    var response := Perform(db, step, ttl).1;
    if response.Some? && Mine(db, step, inboxId) then [response.value] else []
  }

  // The responses to requests made with a session of the inbox.
  function Observed(db: Db, steps: seq<Step>, ttl: int, inboxId: int): seq<Response>
    requires Consistent(db)
    decreases |steps|
  {
    if steps == [] then [] else
    PerformKeepsConsistent(db, steps[0], ttl);
    Seen(db, steps[0], ttl, inboxId) + Observed(Perform(db, steps[0], ttl).0, steps[1..], ttl, inboxId)
  }

  // A step that is not about the inbox, reduced to the ids it used up.
  function Kept(db: Db, step: Step, ttl: int, inboxId: int): Step
    requires Consistent(db)
  {
    PerformKeepsConsistent(db, step, ttl);
    var after := Perform(db, step, ttl).0;
    if Mine(db, step, inboxId) then step
    else Gap(after.nextEmail - db.nextEmail, after.nextAttachment - db.nextAttachment)
  }

  // The same run with every step that is not about the inbox replaced by the ids it used up.
  function Purged(db: Db, steps: seq<Step>, ttl: int, inboxId: int): seq<Step>
    requires Consistent(db)
    decreases |steps|
  {
    if steps == [] then [] else
    PerformKeepsConsistent(db, steps[0], ttl);
    [Kept(db, steps[0], ttl, inboxId)] + Purged(Perform(db, steps[0], ttl).0, steps[1..], ttl, inboxId)
  }

  /** The inbox has been created, and both databases hold the same rows for it and will give out the
      same ids. */
  ghost predicate Agree(p: Db, q: Db, inboxId: int) {
    && SameSlice(p, q, inboxId) && p.nextEmail == q.nextEmail && p.nextAttachment == q.nextAttachment
    && inboxId < p.nextInbox && inboxId < q.nextInbox
  }

  // ----- Statements about others -----

  lemma InsertAttachmentSlice(db: Db, attachment: Attachment, inboxId: int)
    requires Consistent(db) && attachment.emailId in db.emails
    ensures var (after, result) := InsertAttachment(db, attachment);
            OwnAttachments(after, inboxId)
            == if attachment.emailId in OwnEmails(db, inboxId)
               then OwnAttachments(db, inboxId)[db.nextAttachment := result.value]
               else OwnAttachments(db, inboxId)
  {
    var after := InsertAttachment(db, attachment).0;
    assert OwnEmails(after, inboxId) == OwnEmails(db, inboxId);
  }

  lemma SparedSlice(db: Db, doomed: set<int>, inboxId: int)
    requires inboxId !in doomed
    ensures SameSlice(RemoveInboxes(db, doomed), db, inboxId)
  {
    var after := RemoveInboxes(db, doomed);
    assert OwnEmails(after, inboxId) == OwnEmails(db, inboxId);
    assert OwnAttachments(after, inboxId) == OwnAttachments(db, inboxId);
    assert OwnSessions(after, inboxId) == OwnSessions(db, inboxId);
  }

  lemma DoomedSlice(db: Db, doomed: set<int>, inboxId: int)
    requires inboxId in doomed
    ensures OwnInbox(RemoveInboxes(db, doomed), inboxId) == None
    ensures OwnSessions(RemoveInboxes(db, doomed), inboxId) == map[]
    ensures OwnEmails(RemoveInboxes(db, doomed), inboxId) == map[]
    ensures OwnAttachments(RemoveInboxes(db, doomed), inboxId) == map[]
  {}

  lemma InsertSessionSlice(db: Db, token: string, id: int, expiresAt: int, now: int, inboxId: int)
    requires Consistent(db)
    ensures var (after, result) := InsertSession(db, token, id, expiresAt, now);
            OwnSessions(after, inboxId)
            == if result.Ok? && id == inboxId then OwnSessions(db, inboxId)[token := after.sessions[token]]
               else OwnSessions(db, inboxId)
  {}

  lemma MailOfOthersStays(db: Db, op: Op, inboxId: int)
    requires Consistent(db) && !Concerns(db, op, inboxId)
    requires op.SaveEmail? || op.SaveInboundMessage? || op.MarkEmailAsRead? || op.DeleteEmail? || op.SaveAttachment?
    ensures SameSlice(Apply(db, op), db, inboxId)
  {
    match op
    case SaveEmail(email) => if email.inboxId in db.inboxes { InsertEmailSlice(db, email, inboxId); }
    case SaveInboundMessage(email, attachments, faults) =>
      if SaveSucceeds(db, email, attachments, faults) { SaveStaysHome(db, email, attachments, inboxId); }
    case MarkEmailAsRead(emailId) =>
      if emailId in db.emails { MarkReadStaysHome(db, db.emails[emailId].inboxId, emailId); }
    case DeleteEmail(id, emailId) =>
      if FindEmail(db, id, emailId).Ok? { RemoveEmailStaysHome(db, id, emailId); }
    case SaveAttachment(attachment) =>
      if attachment.emailId in db.emails { InsertAttachmentSlice(db, attachment, inboxId); }
  }

  lemma InsertInboxSlice(db: Db, address: string, localPart: string, token: string, hash: string, expiresAt: int,
                         now: int, inboxId: int)
    requires inboxId < db.nextInbox
    ensures SameSlice(InsertInbox(db, address, localPart, token, hash, expiresAt, now).0, db, inboxId)
  {}

  lemma RemoveSessionSlice(db: Db, token: string, inboxId: int)
    ensures OwnSessions(RemoveSession(db, token).0, inboxId) == OwnSessions(db, inboxId) - {token}
    ensures token !in OwnSessions(db, inboxId) ==> SameSlice(RemoveSession(db, token).0, db, inboxId)
  {
    var after := RemoveSession(db, token).0;
    if token !in OwnSessions(db, inboxId) {
      assert OwnSessions(after, inboxId) == OwnSessions(db, inboxId);
    }
  }

  lemma TouchSlice(db: Db, token: string, expiresAt: int, inboxId: int)
    ensures OwnSessions(Touch(db, token, expiresAt).0, inboxId)
         == if token in OwnSessions(db, inboxId)
            then OwnSessions(db, inboxId)[token := OwnSessions(db, inboxId)[token].(expiresAt := Unix(expiresAt))]
            else OwnSessions(db, inboxId)
  {}

  lemma SetLastAccessedSlice(db: Db, id: int, now: int, inboxId: int)
    requires id != inboxId
    ensures SameSlice(SetLastAccessed(db, id, now).0, db, inboxId)
  {}

  lemma OthersStay(db: Db, op: Op, inboxId: int)
    requires Consistent(db) && !Concerns(db, op, inboxId) && inboxId < db.nextInbox
    ensures SameSlice(Apply(db, op), db, inboxId)
  {
    match op
    case CreateInbox(address, localPart, token, hash, expiresAt, now) =>
      InsertInboxSlice(db, address, localPart, token, hash, expiresAt, now, inboxId);
    case UpdateLastAccessed(id, now) => SetLastAccessedSlice(db, id, now, inboxId);
    case CreateSession(_, _, _, _) => SessionsOfOthersStay(db, op, inboxId);
    case DeleteSession(_) => SessionsOfOthersStay(db, op, inboxId);
    case TouchSession(_, _) => SessionsOfOthersStay(db, op, inboxId);
    case CreateDomain(_, _) => SwitchesStay(db, op, inboxId);
    case SetDomainEnabled(_, _) => SwitchesStay(db, op, inboxId);
    case SetSetting(_, _) => SwitchesStay(db, op, inboxId);
    case _ => MailOfOthersStays(db, op, inboxId);
  }

  lemma SessionsOfOthersStay(db: Db, op: Op, inboxId: int)
    requires Consistent(db) && !Concerns(db, op, inboxId)
    requires op.CreateSession? || op.DeleteSession? || op.TouchSession?
    ensures SameSlice(Apply(db, op), db, inboxId)
  {
    match op
    case CreateSession(token, id, expiresAt, now) => InsertSessionSlice(db, token, id, expiresAt, now, inboxId);
    case DeleteSession(token) => RemoveSessionSlice(db, token, inboxId);
    case TouchSession(token, expiresAt) => TouchSlice(db, token, expiresAt, inboxId);
  }

  lemma SwitchesStay(db: Db, op: Op, inboxId: int)
    requires op.CreateDomain? || op.SetDomainEnabled? || op.SetSetting?
    ensures SameSlice(Apply(db, op), db, inboxId)
  {
    var after := Apply(db, op);
    assert after.inboxes == db.inboxes && after.sessions == db.sessions;
    assert after.emails == db.emails && after.attachments == db.attachments;
  }

  // ----- Statements about the inbox -----

  lemma {:induction false} StoredAttachmentsSlice(db: Db, emailId: int, attachments: seq<Attachment>, inboxId: int)
    requires Keyed(db) && emailId in OwnEmails(db, inboxId)
    ensures OwnEmails(StoredAttachments(db, emailId, attachments), inboxId) == OwnEmails(db, inboxId)
    ensures OwnAttachments(StoredAttachments(db, emailId, attachments), inboxId)
         == OwnAttachments(db, inboxId) + AttachmentRows(db.nextAttachment, emailId, attachments)
  {
    AttachmentRowAt(db.nextAttachment, emailId, attachments);
  }

  lemma {:induction false} SavedSlice(db: Db, email: Email, attachments: seq<Attachment>)
    requires Consistent(db) && email.inboxId in db.inboxes
    ensures OwnEmails(StoredMessage(db, email, attachments), email.inboxId)
         == OwnEmails(db, email.inboxId)[db.nextEmail := InsertEmail(db, email).1.value]
    ensures OwnAttachments(StoredMessage(db, email, attachments), email.inboxId)
         == OwnAttachments(db, email.inboxId) + AttachmentRows(db.nextAttachment, db.nextEmail, attachments)
  {
    var inserted := InsertEmail(db, email).0;
    InsertEmailSlice(db, email, email.inboxId);
    InsertEmailKeepsConsistent(db, email);
    StoredAttachmentsSlice(inserted, db.nextEmail, attachments, email.inboxId);
  }

  lemma MailAgrees(p: Db, q: Db, op: Op, inboxId: int)
    requires Consistent(p) && Consistent(q) && Agree(p, q, inboxId) && Concerns(p, op, inboxId)
    requires op.SaveEmail? || op.SaveInboundMessage? || op.MarkEmailAsRead? || op.DeleteEmail? || op.SaveAttachment?
    ensures SameSlice(Apply(p, op), Apply(q, op), inboxId)
  {
    match op
    case SaveEmail(email) =>
      if inboxId in p.inboxes {
        InsertEmailSlice(p, email, inboxId);
        InsertEmailSlice(q, email, inboxId);
      }
    case SaveInboundMessage(email, attachments, faults) =>
      if SaveSucceeds(p, email, attachments, faults) {
        SavedSlice(p, email, attachments);
        SavedSlice(q, email, attachments);
      }
    case MarkEmailAsRead(emailId) =>
      MarkReadStaysHome(p, inboxId, emailId);
      MarkReadStaysHome(q, inboxId, emailId);
    case DeleteEmail(id, emailId) =>
      FoundEmailsAgree(p, q, inboxId, emailId);
      if FindEmail(p, inboxId, emailId).Ok? {
        RemoveEmailStaysHome(p, inboxId, emailId);
        RemoveEmailStaysHome(q, inboxId, emailId);
      }
    case SaveAttachment(attachment) =>
      InsertAttachmentSlice(p, attachment, inboxId);
      InsertAttachmentSlice(q, attachment, inboxId);
  }

  lemma ExpiredSlice(db: Db, now: int, inboxId: int)
    ensures OwnSessions(RemoveExpiredSessions(db, now), inboxId)
         == map t | t in OwnSessions(db, inboxId) && OwnSessions(db, inboxId)[t].expiresAt > Unix(now)
            :: OwnSessions(db, inboxId)[t]
  {}

  lemma SessionsAgree(p: Db, q: Db, op: Op, inboxId: int)
    requires Consistent(p) && Consistent(q) && Agree(p, q, inboxId) && Concerns(p, op, inboxId)
    requires op.CreateSession? || op.DeleteSession? || op.TouchSession? || op.DeleteExpiredSessions?
    requires op.CreateSession? ==> op.token !in p.sessions && op.token !in q.sessions
    ensures SameSlice(Apply(p, op), Apply(q, op), inboxId)
  {
    match op
    case CreateSession(token, id, expiresAt, now) =>
      InsertSessionSlice(p, token, id, expiresAt, now, inboxId);
      InsertSessionSlice(q, token, id, expiresAt, now, inboxId);
    case DeleteSession(token) =>
      RemoveSessionSlice(p, token, inboxId);
      RemoveSessionSlice(q, token, inboxId);
    case TouchSession(token, expiresAt) =>
      TouchSlice(p, token, expiresAt, inboxId);
      TouchSlice(q, token, expiresAt, inboxId);
    case DeleteExpiredSessions(now) =>
      ExpiredSlice(p, now, inboxId);
      ExpiredSlice(q, now, inboxId);
  }

  lemma ExpiriesAgree(p: Db, q: Db, now: int, inboxId: int)
    requires SameSlice(p, q, inboxId)
    ensures SameSlice(RemoveExpiredInboxes(p, now), RemoveExpiredInboxes(q, now), inboxId)
  {
    assert inboxId in ExpiredInboxes(p, now) <==> inboxId in ExpiredInboxes(q, now);
    if inboxId in ExpiredInboxes(p, now) {
      DoomedSlice(p, ExpiredInboxes(p, now), inboxId);
      DoomedSlice(q, ExpiredInboxes(q, now), inboxId);
    } else {
      SparedSlice(p, ExpiredInboxes(p, now), inboxId);
      SparedSlice(q, ExpiredInboxes(q, now), inboxId);
    }
  }

  lemma OwnAgrees(p: Db, q: Db, op: Op, inboxId: int)
    requires Consistent(p) && Consistent(q) && Agree(p, q, inboxId) && Concerns(p, op, inboxId)
    requires op.CreateSession? ==> op.token !in p.sessions && op.token !in q.sessions
    ensures SameSlice(Apply(p, op), Apply(q, op), inboxId)
  {
    match op
    case UpdateLastAccessed(_, _) =>
    case DeleteExpiredInboxes(now) =>
      ExpiriesAgree(p, q, now, inboxId);
    case CreateSession(_, _, _, _) => SessionsAgree(p, q, op, inboxId);
    case DeleteSession(_) => SessionsAgree(p, q, op, inboxId);
    case TouchSession(_, _) => SessionsAgree(p, q, op, inboxId);
    case DeleteExpiredSessions(_) => SessionsAgree(p, q, op, inboxId);
    case _ => MailAgrees(p, q, op, inboxId);
  }

  // Only mail draws ids of emails and attachments.
  lemma OtherCountersStay(db: Db, op: Op)
    requires !op.SaveEmail? && !op.SaveInboundMessage? && !op.SaveAttachment?
    ensures Apply(db, op).nextEmail == db.nextEmail && Apply(db, op).nextAttachment == db.nextAttachment
  {}

  lemma MailCountersAgree(p: Db, q: Db, email: Email, attachments: seq<Attachment>, faults: set<nat>)
    requires p.nextEmail == q.nextEmail && p.nextAttachment == q.nextAttachment
    requires email.inboxId in p.inboxes <==> email.inboxId in q.inboxes
    ensures InsertEmail(p, email).0.nextEmail == InsertEmail(q, email).0.nextEmail
    ensures InsertEmail(p, email).0.nextAttachment == InsertEmail(q, email).0.nextAttachment
    ensures SaveMessage(p, email, attachments, faults).0.nextEmail
         == SaveMessage(q, email, attachments, faults).0.nextEmail
    ensures SaveMessage(p, email, attachments, faults).0.nextAttachment
         == SaveMessage(q, email, attachments, faults).0.nextAttachment
  {}

  lemma OwnCountersAgree(p: Db, q: Db, op: Op, inboxId: int)
    requires Agree(p, q, inboxId) && Concerns(p, op, inboxId)
    ensures Apply(p, op).nextEmail == Apply(q, op).nextEmail
    ensures Apply(p, op).nextAttachment == Apply(q, op).nextAttachment
  {
    match op
    case SaveAttachment(attachment) => assert attachment.emailId in OwnEmails(q, inboxId);
    case SaveEmail(email) => MailCountersAgree(p, q, email, [], {});
    case SaveInboundMessage(email, attachments, faults) => MailCountersAgree(p, q, email, attachments, faults);
    case _ =>
      OtherCountersStay(p, op);
      OtherCountersStay(q, op);
  }

  // ----- Tokens -----

  ghost predicate Unused(db: Db, steps: seq<Step>) {
    forall i :: 0 <= i < |steps| && steps[i].Statement? && steps[i].op.CreateSession? ==>
      steps[i].op.token !in db.sessions
  }

  // No two logins get the same token.
  ghost predicate FreshTokens(steps: seq<Step>) {
    forall i, j :: 0 <= i < j < |steps| && steps[i].Statement? && steps[j].Statement?
                   && steps[i].op.CreateSession? && steps[j].op.CreateSession? ==>
      steps[i].op.token != steps[j].op.token
  }

  lemma SessionsOnlyFromLogins(db: Db, step: Step, ttl: int)
    requires Consistent(db)
    ensures forall t <- Perform(db, step, ttl).0.sessions ::
              t in db.sessions || (step.Statement? && step.op.CreateSession? && step.op.token == t)
  {
    match step
    case Request(visit) =>
      SessionTraces.VisitMovesOneExpiry(db, visit.token, visit.request, visit.now, visit.slidAt, ttl);
    case Statement(op) =>
      forall t | t in Apply(db, op).sessions ensures t in db.sessions || (op.CreateSession? && op.token == t) {
        if t !in db.sessions && (op.CreateSession? ==> op.token != t) {
          NoSessionAppears(db, op, t);
        }
      }
    case Gap(_, _) =>
  }

  lemma UnusedAfter(db: Db, steps: seq<Step>, done: Step, ttl: int)
    requires Consistent(db) && steps != [] && FreshTokens(steps) && Unused(db, steps)
    requires done == steps[0] || done.Gap?
    ensures Unused(Perform(db, done, ttl).0, steps[1..]) && FreshTokens(steps[1..])
  {
    var after, rest := Perform(db, done, ttl).0, steps[1..];
    SessionsOnlyFromLogins(db, done, ttl);
    forall i | 0 <= i < |rest| && rest[i].Statement? && rest[i].op.CreateSession?
      ensures rest[i].op.token !in after.sessions
    {
      assert rest[i] == steps[i + 1];
    }
    forall i, j | 0 <= i < j < |rest| && rest[i].Statement? && rest[j].Statement?
                  && rest[i].op.CreateSession? && rest[j].op.CreateSession?
      ensures rest[i].op.token != rest[j].op.token
    {
      assert rest[i] == steps[i + 1] && rest[j] == steps[j + 1];
    }
  }

  // ----- One step -----

  lemma MineAgrees(p: Db, q: Db, step: Step, ttl: int, inboxId: int)
    requires Consistent(p) && Consistent(q) && Agree(p, q, inboxId) && Mine(p, step, inboxId)
    requires step.Statement? && step.op.CreateSession? ==>
               step.op.token !in p.sessions && step.op.token !in q.sessions
    ensures Mine(q, step, inboxId) && Perform(p, step, ttl).1 == Perform(q, step, ttl).1
    ensures Agree(Perform(p, step, ttl).0, Perform(q, step, ttl).0, inboxId)
  {
    PerformKeepsConsistent(p, step, ttl);
    PerformKeepsConsistent(q, step, ttl);
    match step
    case Request(visit) =>
      ResponsesDependOnOwnRowsOnly(p, q, visit.token, visit.request, visit.now, visit.slidAt, ttl, inboxId);
      RequestsKeepCounters(p, visit, ttl);
      RequestsKeepCounters(q, visit, ttl);
    case Statement(op) =>
      OwnAgrees(p, q, op, inboxId);
      OwnCountersAgree(p, q, op, inboxId);
    case Gap(_, _) =>
  }

  lemma OthersLeaveGaps(p: Db, q: Db, step: Step, ttl: int, inboxId: int)
    requires Consistent(p) && Consistent(q) && Agree(p, q, inboxId) && !Mine(p, step, inboxId)
    ensures CountersGrow(p, Perform(p, step, ttl).0)
    ensures var after := Perform(p, step, ttl).0;
            Agree(after, Perform(q, Gap(after.nextEmail - p.nextEmail, after.nextAttachment - p.nextAttachment), ttl).0,
                  inboxId)
  {
    PerformKeepsConsistent(p, step, ttl);
    var after := Perform(p, step, ttl).0;
    match step
    case Request(visit) =>
      RequestsStayHome(p, visit.token, visit.request, visit.now, visit.slidAt, ttl, inboxId);
    case Statement(op) => OthersStay(p, op, inboxId);
    case Gap(_, _) =>
  }

  lemma StepAgrees(p: Db, q: Db, step: Step, ttl: int, inboxId: int)
    requires Consistent(p) && Consistent(q) && Agree(p, q, inboxId)
    requires step.Statement? && step.op.CreateSession? ==>
               step.op.token !in p.sessions && step.op.token !in q.sessions
    ensures Seen(p, step, ttl, inboxId) == Seen(q, Kept(p, step, ttl, inboxId), ttl, inboxId)
    ensures Agree(Perform(p, step, ttl).0, Perform(q, Kept(p, step, ttl, inboxId), ttl).0, inboxId)
  {
    if Mine(p, step, inboxId) {
      MineAgrees(p, q, step, ttl, inboxId);
    } else {
      OthersLeaveGaps(p, q, step, ttl, inboxId);
    }
  }

  /** Non-interference over every run of requests and statements, deliveries, registrations, logins,
      logouts and cleanups included: the holder of an inbox is answered the same when everything that
      is not about that inbox is left out and only the ids it used up are skipped. */
  lemma {:induction false} OnlyIdsLeak(p: Db, q: Db, steps: seq<Step>, ttl: int, inboxId: int)
    requires Consistent(p) && Consistent(q) && Agree(p, q, inboxId)
    requires FreshTokens(steps) && Unused(p, steps) && Unused(q, steps)
    ensures Observed(p, steps, ttl, inboxId) == Observed(q, Purged(p, steps, ttl, inboxId), ttl, inboxId)
    decreases |steps|
  {
    if steps != [] {
      var step, kept := steps[0], Kept(p, steps[0], ttl, inboxId);
      var p', q' := Perform(p, step, ttl).0, Perform(q, kept, ttl).0;
      PerformKeepsConsistent(p, step, ttl);
      PerformKeepsConsistent(q, kept, ttl);
      UnusedAfter(p, steps, step, ttl);
      UnusedAfter(q, steps, kept, ttl);
      StepAgrees(p, q, step, ttl, inboxId);
      OnlyIdsLeak(p', q', steps[1..], ttl, inboxId);
      ObservedFrom(q, kept, Purged(p', steps[1..], ttl, inboxId), ttl, inboxId);
    }
  }

  lemma {:induction false} ObservedFrom(db: Db, step: Step, rest: seq<Step>, ttl: int, inboxId: int)
    requires Consistent(db) && Consistent(Perform(db, step, ttl).0)
    ensures Observed(db, [step] + rest, ttl, inboxId)
         == Seen(db, step, ttl, inboxId) + Observed(Perform(db, step, ttl).0, rest, ttl, inboxId)
  {
    assert ([step] + rest)[1..] == rest;
  }
}
