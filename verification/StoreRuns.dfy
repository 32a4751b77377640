/** What every sequence of repository operations keeps. Each operation is one atomic step:
    the store has a single connection (internal/repository/sqlite.go:40). */
module StoreRuns {
  import opened Outcome
  import opened Schema

  datatype Op =
    | CreateInbox(address: string, localPart: string, token: string, passwordHash: string, expiresAt: int, now: int)
    | UpdateLastAccessed(inboxId: int, now: int)
    | DeleteExpiredInboxes(now: int)
    | SaveEmail(email: Email)
    | SaveInboundMessage(email: Email, attachments: seq<Attachment>, faults: set<nat>)
    | MarkEmailAsRead(emailId: int)
    | DeleteEmail(inboxId: int, emailId: int)
    | SaveAttachment(attachment: Attachment)
    | CreateDomain(name: string, now: int)
    | SetDomainEnabled(name: string, enabled: bool)
    | CreateSession(token: string, inboxId: int, expiresAt: int, now: int)
    | DeleteSession(token: string)
    | TouchSession(token: string, expiresAt: int)
    | DeleteExpiredSessions(now: int)
    | SetSetting(key: string, value: string)

  function Apply(db: Db, op: Op): Db {
    match op
    case CreateInbox(address, localPart, token, hash, expiresAt, now) =>
      InsertInbox(db, address, localPart, token, hash, expiresAt, now).0
    case UpdateLastAccessed(inboxId, now) => SetLastAccessed(db, inboxId, now).0
    case DeleteExpiredInboxes(now) => RemoveExpiredInboxes(db, now)
    case SaveEmail(email) => InsertEmail(db, email).0
    case SaveInboundMessage(email, attachments, faults) => SaveMessage(db, email, attachments, faults).0
    case MarkEmailAsRead(emailId) => MarkRead(db, emailId).0
    case DeleteEmail(inboxId, emailId) => RemoveEmail(db, inboxId, emailId).0
    case SaveAttachment(attachment) => InsertAttachment(db, attachment).0
    case CreateDomain(name, now) => InsertDomain(db, name, now).0
    case SetDomainEnabled(name, enabled) => SetEnabled(db, name, enabled).0
    case CreateSession(token, inboxId, expiresAt, now) => InsertSession(db, token, inboxId, expiresAt, now).0
    case DeleteSession(token) => RemoveSession(db, token).0
    case TouchSession(token, expiresAt) => Touch(db, token, expiresAt).0
    case DeleteExpiredSessions(now) => RemoveExpiredSessions(db, now)
    case SetSetting(key, value) => PutSetting(db, key, value)
  }

  function Exec(db: Db, ops: seq<Op>): Db
    decreases |ops|
  {
    if ops == [] then db else Exec(Apply(db, ops[0]), ops[1..])
  }

  // ----- What a row can become -----

  ghost predicate SameEmail(a: Email, b: Email) {
    b == a.(isRead := b.isRead) && (a.isRead ==> b.isRead)
  }

  ghost predicate SameInbox(a: Inbox, b: Inbox) {
    b == a.(lastAccessedAt := b.lastAccessedAt)
  }

  ghost predicate CountersGrow(db: Db, later: Db) {
    && db.nextInbox <= later.nextInbox && db.nextEmail <= later.nextEmail
    && db.nextAttachment <= later.nextAttachment && db.nextDomain <= later.nextDomain
  }

  ghost predicate InboxesEvolve(rows: map<int, Inbox>, next: int, later: map<int, Inbox>) {
    forall i <- later :: i < next ==> i in rows && SameInbox(rows[i], later[i])
  }

  ghost predicate EmailsEvolve(rows: map<int, Email>, next: int, later: map<int, Email>) {
    forall i <- later :: i < next ==> i in rows && SameEmail(rows[i], later[i])
  }

  ghost predicate AttachmentsEvolve(rows: map<int, Attachment>, next: int, later: map<int, Attachment>) {
    forall i <- later :: i < next ==> i in rows && rows[i] == later[i]
  }

  ghost predicate DomainsEvolve(rows: map<int, Domain>, later: map<int, Domain>) {
    forall i <- rows :: i in later && later[i].name == rows[i].name
  }

  /** `later` can follow `db`: ids are never given out twice, a row that is still there is
      the same row, and only is_read, last_accessed_at and a domain's switch move. */
  ghost predicate Evolves(db: Db, later: Db) {
    && CountersGrow(db, later)
    && InboxesEvolve(db.inboxes, db.nextInbox, later.inboxes)
    && EmailsEvolve(db.emails, db.nextEmail, later.emails)
    && AttachmentsEvolve(db.attachments, db.nextAttachment, later.attachments)
    && DomainsEvolve(db.domains, later.domains)
  }

  // ----- One step -----

  lemma InsertInboxKeepsConsistent(db: Db, address: string, localPart: string, token: string, hash: string,
                                   expiresAt: int, now: int)
    requires Consistent(db)
    ensures Consistent(InsertInbox(db, address, localPart, token, hash, expiresAt, now).0)
  {
    var (later, result) := InsertInbox(db, address, localPart, token, hash, expiresAt, now);
    if result.Ok? {
      assert later.inboxes == db.inboxes[db.nextInbox := result.value];
      assert UniqueInboxes(later.inboxes);
    }
  }

  lemma InsertInboxEvolves(db: Db, address: string, localPart: string, token: string, hash: string,
                           expiresAt: int, now: int)
    requires Keyed(db)
    ensures Evolves(db, InsertInbox(db, address, localPart, token, hash, expiresAt, now).0)
  {}

  lemma SetLastAccessedKeepsConsistent(db: Db, inboxId: int, now: int)
    requires Consistent(db)
    ensures Consistent(SetLastAccessed(db, inboxId, now).0)
  {}

  lemma SetLastAccessedEvolves(db: Db, inboxId: int, now: int)
    requires Keyed(db)
    ensures Evolves(db, SetLastAccessed(db, inboxId, now).0)
  {}

  lemma RemoveInboxesKeepsConsistent(db: Db, doomed: set<int>)
    requires Consistent(db)
    ensures Consistent(RemoveInboxes(db, doomed))
  {}

  lemma RemoveInboxesEvolves(db: Db, doomed: set<int>)
    requires Keyed(db)
    ensures Evolves(db, RemoveInboxes(db, doomed))
  {}

  lemma InsertEmailKeepsConsistent(db: Db, email: Email)
    requires Consistent(db)
    ensures Consistent(InsertEmail(db, email).0)
  {}

  lemma InsertEmailEvolves(db: Db, email: Email)
    requires Keyed(db)
    ensures Evolves(db, InsertEmail(db, email).0)
  {}

  lemma InsertAttachmentKeepsConsistent(db: Db, attachment: Attachment)
    requires Consistent(db)
    ensures Consistent(InsertAttachment(db, attachment).0)
  {}

  lemma InsertAttachmentEvolves(db: Db, attachment: Attachment)
    requires Keyed(db)
    ensures Evolves(db, InsertAttachment(db, attachment).0)
  {}

  lemma StoreAttachmentsKeepsConsistent(db: Db, emailId: int, attachments: seq<Attachment>)
    requires Consistent(db) && emailId in db.emails
    ensures Consistent(StoredAttachments(db, emailId, attachments))
  {
    AttachmentRowAt(db.nextAttachment, emailId, attachments);
  }

  lemma MarkReadKeepsConsistent(db: Db, emailId: int)
    requires Consistent(db)
    ensures Consistent(MarkRead(db, emailId).0)
  {}

  lemma MarkReadEvolves(db: Db, emailId: int)
    requires Keyed(db)
    ensures Evolves(db, MarkRead(db, emailId).0)
  {}

  lemma RemoveEmailKeepsConsistent(db: Db, inboxId: int, emailId: int)
    requires Consistent(db)
    ensures Consistent(RemoveEmail(db, inboxId, emailId).0)
  {}

  lemma RemoveEmailEvolves(db: Db, inboxId: int, emailId: int)
    requires Keyed(db)
    ensures Evolves(db, RemoveEmail(db, inboxId, emailId).0)
  {}

  lemma InsertDomainKeepsConsistent(db: Db, name: string, now: int)
    requires Consistent(db)
    ensures Consistent(InsertDomain(db, name, now).0)
  {}

  lemma InsertDomainEvolves(db: Db, name: string, now: int)
    requires Keyed(db)
    ensures Evolves(db, InsertDomain(db, name, now).0)
  {}

  lemma SetEnabledKeepsConsistent(db: Db, name: string, enabled: bool)
    requires Consistent(db)
    ensures Consistent(SetEnabled(db, name, enabled).0)
  {}

  lemma SetEnabledEvolves(db: Db, name: string, enabled: bool)
    requires Keyed(db)
    ensures Evolves(db, SetEnabled(db, name, enabled).0)
  {}

  lemma InsertSessionKeepsConsistent(db: Db, token: string, inboxId: int, expiresAt: int, now: int)
    requires Consistent(db)
    ensures Consistent(InsertSession(db, token, inboxId, expiresAt, now).0)
  {}

  lemma InsertSessionEvolves(db: Db, token: string, inboxId: int, expiresAt: int, now: int)
    requires Keyed(db)
    ensures Evolves(db, InsertSession(db, token, inboxId, expiresAt, now).0)
  {}

  lemma RemoveSessionKeepsConsistent(db: Db, token: string)
    requires Consistent(db)
    ensures Consistent(RemoveSession(db, token).0)
  {}

  lemma RemoveSessionEvolves(db: Db, token: string)
    requires Keyed(db)
    ensures Evolves(db, RemoveSession(db, token).0)
  {}

  lemma TouchKeepsConsistent(db: Db, token: string, expiresAt: int)
    requires Consistent(db)
    ensures Consistent(Touch(db, token, expiresAt).0)
  {}

  lemma TouchEvolves(db: Db, token: string, expiresAt: int)
    requires Keyed(db)
    ensures Evolves(db, Touch(db, token, expiresAt).0)
  {}

  lemma RemoveExpiredSessionsKeepsConsistent(db: Db, now: int)
    requires Consistent(db)
    ensures Consistent(RemoveExpiredSessions(db, now))
  {}

  lemma RemoveExpiredSessionsEvolves(db: Db, now: int)
    requires Keyed(db)
    ensures Evolves(db, RemoveExpiredSessions(db, now))
  {}

  lemma SaveMessageKeepsConsistent(db: Db, email: Email, attachments: seq<Attachment>, faults: set<nat>)
    requires Consistent(db)
    ensures Consistent(SaveMessage(db, email, attachments, faults).0)
  {
    if SaveSucceeds(db, email, attachments, faults) {
      InsertEmailKeepsConsistent(db, email);
      StoreAttachmentsKeepsConsistent(InsertEmail(db, email).0, db.nextEmail, attachments);
    }
  }

  lemma SaveMessageEvolves(db: Db, email: Email, attachments: seq<Attachment>, faults: set<nat>)
    requires Keyed(db)
    ensures Evolves(db, SaveMessage(db, email, attachments, faults).0)
  {
    if SaveSucceeds(db, email, attachments, faults) {
      InsertEmailEvolves(db, email);
      AttachmentRowAt(db.nextAttachment, db.nextEmail, attachments);
    }
  }

  lemma StepKeepsConsistent(db: Db, op: Op)
    requires Consistent(db)
    ensures Consistent(Apply(db, op))
  {
    match op
    case CreateInbox(address, localPart, token, hash, expiresAt, now) =>
      InsertInboxKeepsConsistent(db, address, localPart, token, hash, expiresAt, now);
    case UpdateLastAccessed(inboxId, now) => SetLastAccessedKeepsConsistent(db, inboxId, now);
    case DeleteExpiredInboxes(now) => RemoveInboxesKeepsConsistent(db, ExpiredInboxes(db, now));
    case SaveEmail(email) => InsertEmailKeepsConsistent(db, email);
    case SaveInboundMessage(email, attachments, faults) => SaveMessageKeepsConsistent(db, email, attachments, faults);
    case MarkEmailAsRead(emailId) => MarkReadKeepsConsistent(db, emailId);
    case DeleteEmail(inboxId, emailId) => RemoveEmailKeepsConsistent(db, inboxId, emailId);
    case SaveAttachment(attachment) => InsertAttachmentKeepsConsistent(db, attachment);
    case CreateDomain(name, now) => InsertDomainKeepsConsistent(db, name, now);
    case SetDomainEnabled(name, enabled) => SetEnabledKeepsConsistent(db, name, enabled);
    case CreateSession(token, inboxId, expiresAt, now) =>
      InsertSessionKeepsConsistent(db, token, inboxId, expiresAt, now);
    case DeleteSession(token) => RemoveSessionKeepsConsistent(db, token);
    case TouchSession(token, expiresAt) => TouchKeepsConsistent(db, token, expiresAt);
    case DeleteExpiredSessions(now) => RemoveExpiredSessionsKeepsConsistent(db, now);
    case SetSetting(key, value) =>
  }

  lemma StepEvolves(db: Db, op: Op)
    requires Keyed(db)
    ensures Evolves(db, Apply(db, op))
  {
    match op
    case CreateInbox(address, localPart, token, hash, expiresAt, now) =>
      InsertInboxEvolves(db, address, localPart, token, hash, expiresAt, now);
    case UpdateLastAccessed(inboxId, now) => SetLastAccessedEvolves(db, inboxId, now);
    case DeleteExpiredInboxes(now) => RemoveInboxesEvolves(db, ExpiredInboxes(db, now));
    case SaveEmail(email) => InsertEmailEvolves(db, email);
    case SaveInboundMessage(email, attachments, faults) => SaveMessageEvolves(db, email, attachments, faults);
    case MarkEmailAsRead(emailId) => MarkReadEvolves(db, emailId);
    case DeleteEmail(inboxId, emailId) => RemoveEmailEvolves(db, inboxId, emailId);
    case SaveAttachment(attachment) => InsertAttachmentEvolves(db, attachment);
    case CreateDomain(name, now) => InsertDomainEvolves(db, name, now);
    case SetDomainEnabled(name, enabled) => SetEnabledEvolves(db, name, enabled);
    case CreateSession(token, inboxId, expiresAt, now) => InsertSessionEvolves(db, token, inboxId, expiresAt, now);
    case DeleteSession(token) => RemoveSessionEvolves(db, token);
    case TouchSession(token, expiresAt) => TouchEvolves(db, token, expiresAt);
    case DeleteExpiredSessions(now) => RemoveExpiredSessionsEvolves(db, now);
    case SetSetting(key, value) => assert Apply(db, op) == db.(settings := db.settings[key := value]);
  }

  // ----- Every run -----

  lemma EvolvesTransitive(a: Db, b: Db, c: Db)
    requires Consistent(b) && Consistent(c) && Evolves(a, b) && Evolves(b, c)
    ensures Evolves(a, c)
  {}

  /** No run of operations breaks a key, a foreign key or a uniqueness rule, gives an id out
      twice, or turns a row into another one. */
  lemma {:induction false} RunIsSound(db: Db, ops: seq<Op>)
    requires Consistent(db)
    ensures Consistent(Exec(db, ops)) && Evolves(db, Exec(db, ops))
    decreases |ops|
  {
    if ops != [] {
      var next := Apply(db, ops[0]);
      StepKeepsConsistent(db, ops[0]);
      StepEvolves(db, ops[0]);
      RunIsSound(next, ops[1..]);
      EvolvesTransitive(db, next, Exec(db, ops));
    }
  }

  // ----- Deletion -----

  lemma CascadeFromInboxes(db: Db, doomed: set<int>)
    requires Consistent(db)
    ensures DropOrphans(db.(inboxes := db.inboxes - doomed)) == RemoveInboxes(db, doomed)
  {
    var rest, left := db.(inboxes := db.inboxes - doomed), RemoveInboxes(db, doomed);
    assert forall i <- db.emails :: db.emails[i].inboxId in rest.inboxes <==> db.emails[i].inboxId !in doomed;
    assert forall t <- db.sessions :: db.sessions[t].inboxId in rest.inboxes <==> db.sessions[t].inboxId !in doomed;
    assert DropOrphans(rest).emails == left.emails;
    assert DropOrphans(rest).sessions == left.sessions;
  }

  lemma CascadeFromEmail(db: Db, inboxId: int, emailId: int)
    requires Consistent(db) && FindEmail(db, inboxId, emailId).Ok?
    ensures DropOrphans(db.(emails := db.emails - {emailId})) == RemoveEmail(db, inboxId, emailId).0
  {
    var rest, left := db.(emails := db.emails - {emailId}), RemoveEmail(db, inboxId, emailId).0;
    assert forall i <- rest.emails :: rest.emails[i].inboxId in db.inboxes;
    assert DropOrphans(rest).emails == left.emails;
    assert forall i <- db.attachments ::
      db.attachments[i].emailId in left.emails <==> db.attachments[i].emailId != emailId;
    assert DropOrphans(rest).attachments == left.attachments;
    assert DropOrphans(rest).sessions == left.sessions;
  }

  /** Deleting inboxes, with the cascade through the tables below, removes exactly those rows and
      everything that hangs on them, and nothing else. */
  lemma InboxDeletionIsExact(db: Db, doomed: set<int>)
    requires Consistent(db)
    ensures var after := DropOrphans(db.(inboxes := db.inboxes - doomed));
            && Consistent(after)
            && after.inboxes == db.inboxes - doomed
            && (forall i :: i in after.emails <==> i in db.emails && db.emails[i].inboxId !in doomed)
            && (forall i :: i in after.attachments <==>
                  i in db.attachments && db.emails[db.attachments[i].emailId].inboxId !in doomed)
            && (forall t :: t in after.sessions <==> t in db.sessions && db.sessions[t].inboxId !in doomed)
            && (forall i <- after.emails :: after.emails[i] == db.emails[i])
            && (forall i <- after.attachments :: after.attachments[i] == db.attachments[i])
            && (forall t <- after.sessions :: after.sessions[t] == db.sessions[t])
  {
    CascadeFromInboxes(db, doomed);
    RemoveInboxesKeepsConsistent(db, doomed);
  }

  /** Deleting an email, with the cascade, removes it and exactly its attachments. */
  lemma EmailDeletionIsExact(db: Db, inboxId: int, emailId: int)
    requires Consistent(db) && emailId in db.emails && db.emails[emailId].inboxId == inboxId
    ensures var after := DropOrphans(db.(emails := db.emails - {emailId}));
            && Consistent(after)
            && after.emails == db.emails - {emailId}
            && (forall i :: i in after.attachments
                       <==> i in db.attachments && db.attachments[i].emailId != emailId)
            && (forall i <- after.attachments :: after.attachments[i] == db.attachments[i])
            && after.(emails := db.emails, attachments := db.attachments) == db
  {
    CascadeFromEmail(db, inboxId, emailId);
    RemoveEmailKeepsConsistent(db, inboxId, emailId);
  }

  // ----- Settings -----

  lemma OtherSettingsStay(db: Db, op: Op, key: string)
    requires op.SetSetting? ==> op.key != key
    ensures FindSetting(Apply(db, op), key) == FindSetting(db, key)
  {}

  /** A setting reads back as last written, whatever else happens in between. */
  lemma {:induction false} SettingReadsBack(db: Db, key: string, value: string, ops: seq<Op>)
    requires FindSetting(db, key) == Ok(value)
    requires forall op <- ops :: op.SetSetting? ==> op.key != key
    ensures FindSetting(Exec(db, ops), key) == Ok(value)
    decreases |ops|
  {
    if ops != [] {
      OtherSettingsStay(db, ops[0], key);
      SettingReadsBack(Apply(db, ops[0]), key, value, ops[1..]);
    }
  }
}
