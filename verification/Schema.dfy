/** The tables of migrations/001 to 004 and the SQL statements of
    internal/repository/sqlite.go as functions on their contents. */
module Schema {
  import opened Outcome
  import opened Text
  import opened Clock

  newtype byte = b: int | 0 <= b < 256

  // Time columns hold whole unix seconds.
  datatype Inbox = Inbox(id: int, address: string, localPart: string, token: string, passwordHash: string,
                         createdAt: int, lastAccessedAt: int, expiresAt: int)
  datatype Email = Email(id: int, inboxId: int, messageId: string, sender: string, senderName: string,
                         recipient: string, subject: string, bodyHtml: string, bodyText: string,
                         rawHeaders: string, sizeBytes: int, hasAttachments: bool, receivedAt: int, isRead: bool)
  datatype Attachment = Attachment(id: int, emailId: int, filename: string, contentType: string,
                                   sizeBytes: int, content: seq<byte>)
  datatype Session = Session(token: string, inboxId: int, createdAt: int, expiresAt: int)
  datatype Domain = Domain(id: int, name: string, enabled: bool, createdAt: int)

  // Rows by primary key, and the next AUTOINCREMENT value of each table that has one.
  datatype Db = Db(inboxes: map<int, Inbox>, emails: map<int, Email>, attachments: map<int, Attachment>,
                   sessions: map<string, Session>, domains: map<int, Domain>, settings: map<string, string>,
                   nextInbox: int, nextEmail: int, nextAttachment: int, nextDomain: int)

  const EMPTY := Db(map[], map[], map[], map[], map[], map[], 1, 1, 1, 1)

  // ----- What the schema guarantees -----

  ghost predicate InboxKeys(rows: map<int, Inbox>, next: int) {
    0 < next && forall i <- rows :: rows[i].id == i && 0 < i < next
  }

  ghost predicate EmailKeys(rows: map<int, Email>, next: int) {
    0 < next && forall i <- rows :: rows[i].id == i && 0 < i < next
  }

  ghost predicate AttachmentKeys(rows: map<int, Attachment>, next: int) {
    0 < next && forall i <- rows :: rows[i].id == i && 0 < i < next
  }

  ghost predicate DomainKeys(rows: map<int, Domain>, next: int) {
    0 < next && forall i <- rows :: rows[i].id == i && 0 < i < next
  }

  ghost predicate SessionKeys(rows: map<string, Session>) {
    forall t <- rows :: rows[t].token == t
  }

  ghost predicate EmailOwners(emails: map<int, Email>, inboxes: map<int, Inbox>) {
    forall i <- emails :: emails[i].inboxId in inboxes
  }

  ghost predicate AttachmentOwners(attachments: map<int, Attachment>, emails: map<int, Email>) {
    forall i <- attachments :: attachments[i].emailId in emails
  }

  ghost predicate SessionOwners(sessions: map<string, Session>, inboxes: map<int, Inbox>) {
    forall t <- sessions :: sessions[t].inboxId in inboxes
  }

  ghost predicate UniqueInboxes(rows: map<int, Inbox>) {
    forall i, j :: i in rows && j in rows && i != j ==>
      !EqualFold(rows[i].address, rows[j].address) && rows[i].token != rows[j].token
  }

  ghost predicate UniqueDomains(rows: map<int, Domain>) {
    forall i, j :: i in rows && j in rows && i != j ==> !EqualFold(rows[i].name, rows[j].name)
  }

  /** Primary keys and AUTOINCREMENT counters. */
  ghost predicate Keyed(db: Db) {
    && InboxKeys(db.inboxes, db.nextInbox) && EmailKeys(db.emails, db.nextEmail)
    && AttachmentKeys(db.attachments, db.nextAttachment) && DomainKeys(db.domains, db.nextDomain)
    && SessionKeys(db.sessions)
  }

  /** Primary keys, foreign keys and UNIQUE columns. */
  ghost predicate Consistent(db: Db) {
    && Keyed(db)
    && EmailOwners(db.emails, db.inboxes) && AttachmentOwners(db.attachments, db.emails)
    && SessionOwners(db.sessions, db.inboxes)
    && UniqueInboxes(db.inboxes) && UniqueDomains(db.domains)
  }

  // ----- Inboxes -----

  predicate AddressTaken(db: Db, address: string) {
    exists i <- db.inboxes :: EqualFold(db.inboxes[i].address, address)
  }

  predicate TokenTaken(db: Db, token: string) {
    exists i <- db.inboxes :: db.inboxes[i].token == token
  }

  function InsertInbox(db: Db, address: string, localPart: string, token: string, passwordHash: string,
                       expiresAt: int, now: int): (Db, Result<Inbox>) {
    if AddressTaken(db, address) || TokenTaken(db, token) then (db, Err(Conflict)) else
    var row := Inbox(db.nextInbox, address, localPart, token, passwordHash, Unix(now), Unix(now), Unix(expiresAt));
    (db.(inboxes := db.inboxes[row.id := row], nextInbox := row.id + 1), Ok(row))
  }

  ghost function FindInboxByAddress(db: Db, address: string): Result<Inbox> {
    if !AddressTaken(db, address) then Err(NotFound) else
    var i :| i in db.inboxes && EqualFold(db.inboxes[i].address, address);
    Ok(db.inboxes[i])
  }

  function SetLastAccessed(db: Db, inboxId: int, now: int): (Db, Result<()>) {
    if inboxId !in db.inboxes then (db, Err(NotFound)) else
    (db.(inboxes := db.inboxes[inboxId := db.inboxes[inboxId].(lastAccessedAt := Unix(now))]), Ok(()))
  }

  // ON DELETE CASCADE, table by table: rows whose parent row is gone go as well.
  function DropOrphans(db: Db): Db {
    var emails := map i | i in db.emails && db.emails[i].inboxId in db.inboxes :: db.emails[i];
    db.(emails := emails,
        attachments := map i | i in db.attachments && db.attachments[i].emailId in emails :: db.attachments[i],
        sessions := map t | t in db.sessions && db.sessions[t].inboxId in db.inboxes :: db.sessions[t])
  }

  // What is left without these inboxes and everything below them.
  function RemoveInboxes(db: Db, doomed: set<int>): Db {
    var emails := map i | i in db.emails && db.emails[i].inboxId !in doomed :: db.emails[i];
    db.(inboxes := db.inboxes - doomed,
        emails := emails,
        attachments := map i | i in db.attachments && db.attachments[i].emailId in emails :: db.attachments[i],
        sessions := map t | t in db.sessions && db.sessions[t].inboxId !in doomed :: db.sessions[t])
  }

  function ExpiredInboxes(db: Db, now: int): set<int> {
    set i | i in db.inboxes && db.inboxes[i].expiresAt <= Unix(now)
  }

  function RemoveExpiredInboxes(db: Db, now: int): Db {
    RemoveInboxes(db, ExpiredInboxes(db, now))
  }

  // ----- Emails and attachments -----

  function InsertEmail(db: Db, email: Email): (Db, Result<Email>) {
    if email.inboxId !in db.inboxes then (db, Err(Failed)) else
    var row := email.(id := db.nextEmail,
                      subject := if email.subject == "" then "(no subject)" else email.subject);
    (db.(emails := db.emails[row.id := row], nextEmail := row.id + 1), Ok(row))
  }

  function InsertAttachment(db: Db, attachment: Attachment): (Db, Result<Attachment>) {
    if attachment.emailId !in db.emails then (db, Err(Failed)) else
    var row := attachment.(id := db.nextAttachment);
    (db.(attachments := db.attachments[row.id := row], nextAttachment := row.id + 1), Ok(row))
  }

  function FindEmail(db: Db, inboxId: int, emailId: int): Result<Email> {
    if emailId in db.emails && db.emails[emailId].inboxId == inboxId then Ok(db.emails[emailId]) else Err(NotFound)
  }

  function MarkRead(db: Db, emailId: int): (Db, Result<()>) {
    if emailId !in db.emails then (db, Err(NotFound)) else
    (db.(emails := db.emails[emailId := db.emails[emailId].(isRead := true)]), Ok(()))
  }

  function RemoveEmail(db: Db, inboxId: int, emailId: int): (Db, Result<()>) {
    if FindEmail(db, inboxId, emailId).Err? then (db, Err(NotFound)) else
    (db.(emails := db.emails - {emailId},
         attachments := map i | i in db.attachments && db.attachments[i].emailId != emailId :: db.attachments[i]),
     Ok(()))
  }

  function FindAttachment(db: Db, attachmentId: int): Result<Attachment> {
    if attachmentId in db.attachments then Ok(db.attachments[attachmentId]) else Err(NotFound)
  }

  function UnreadIds(db: Db, inboxId: int): set<int> {
    set i | i in db.emails && db.emails[i].inboxId == inboxId && !db.emails[i].isRead
  }

  function UnreadCount(db: Db, inboxId: int): nat { |UnreadIds(db, inboxId)| }

  // ----- Domains -----

  predicate DomainTaken(db: Db, name: string) {
    exists i <- db.domains :: EqualFold(db.domains[i].name, name)
  }

  predicate DomainEnabled(db: Db, name: string) {
    exists i <- db.domains :: EqualFold(db.domains[i].name, Trim(name)) && db.domains[i].enabled
  }

  function InsertDomain(db: Db, name: string, now: int): (Db, Result<Domain>) {
    var name := Lower(Trim(name));
    if DomainTaken(db, name) then (db, Err(Conflict)) else
    var row := Domain(db.nextDomain, name, true, Unix(now));
    (db.(domains := db.domains[row.id := row], nextDomain := row.id + 1), Ok(row))
  }

  ghost function FindDomain(db: Db, name: string): Result<Domain> {
    if !DomainTaken(db, Trim(name)) then Err(NotFound) else
    var i :| i in db.domains && EqualFold(db.domains[i].name, Trim(name));
    Ok(db.domains[i])
  }

  function SetEnabled(db: Db, name: string, enabled: bool): (Db, Result<()>) {
    if !DomainTaken(db, Trim(name)) then (db, Err(NotFound)) else
    (db.(domains := map i | i in db.domains ::
           if EqualFold(db.domains[i].name, Trim(name)) then db.domains[i].(enabled := enabled) else db.domains[i]),
     Ok(()))
  }

  // ----- Sessions -----

  function InsertSession(db: Db, token: string, inboxId: int, expiresAt: int, now: int): (Db, Result<()>) {
    if token in db.sessions then (db, Err(Conflict))
    else if inboxId !in db.inboxes then (db, Err(Failed))
    else (db.(sessions := db.sessions[token := Session(token, inboxId, Unix(now), Unix(expiresAt))]), Ok(()))
  }

  // The session and the inbox it is joined with.
  function FindSession(db: Db, token: string, now: int): Result<(Session, Inbox)> {
    if token in db.sessions && db.sessions[token].expiresAt > Unix(now) && db.sessions[token].inboxId in db.inboxes
    then Ok((db.sessions[token], db.inboxes[db.sessions[token].inboxId]))
    else Err(NotFound)
  }

  function RemoveSession(db: Db, token: string): (Db, Result<()>) {
    if token !in db.sessions then (db, Err(NotFound)) else (db.(sessions := db.sessions - {token}), Ok(()))
  }

  function Touch(db: Db, token: string, expiresAt: int): (Db, Result<()>) {
    if token !in db.sessions then (db, Err(NotFound)) else
    (db.(sessions := db.sessions[token := db.sessions[token].(expiresAt := Unix(expiresAt))]), Ok(()))
  }

  function RemoveExpiredSessions(db: Db, now: int): Db {
    db.(sessions := map t | t in db.sessions && db.sessions[t].expiresAt > Unix(now) :: db.sessions[t])
  }

  // ----- Settings -----

  function PutSetting(db: Db, key: string, value: string): Db {
    db.(settings := db.settings[key := value])
  }

  function FindSetting(db: Db, key: string): Result<string> {
    if key in db.settings then Ok(db.settings[key]) else Err(NotFound)
  }

  // ----- Names and addresses up to case -----

  lemma AddressesByCase(db: Db, address: string)
    ensures forall i <- db.inboxes ::
              EqualFold(db.inboxes[i].address, address) <==> SameButCase(db.inboxes[i].address, address)
  {
    forall i | i in db.inboxes
      ensures EqualFold(db.inboxes[i].address, address) <==> SameButCase(db.inboxes[i].address, address)
    {
      FoldIff(db.inboxes[i].address, address);
    }
  }

  lemma NamesByCase(db: Db, name: string)
    ensures forall i <- db.domains :: EqualFold(db.domains[i].name, name) <==> SameButCase(db.domains[i].name, name)
  {
    forall i | i in db.domains ensures EqualFold(db.domains[i].name, name) <==> SameButCase(db.domains[i].name, name) {
      FoldIff(db.domains[i].name, name);
    }
  }

  // ----- The inbound-message transaction, when nothing in it fails -----

  // The rows that attachments get: consecutive ids from `first`, in order.
  function AttachmentRows(first: int, emailId: int, attachments: seq<Attachment>): map<int, Attachment> {
    if attachments == [] then map[] else
    var last := |attachments| - 1;
    AttachmentRows(first, emailId, attachments[..last])
      [first + last := attachments[last].(id := first + last, emailId := emailId)]
  }

  lemma {:induction false} AttachmentRowAt(first: int, emailId: int, attachments: seq<Attachment>)
    ensures forall i :: i in AttachmentRows(first, emailId, attachments) <==> 0 <= i - first < |attachments|
    ensures forall i :: i in AttachmentRows(first, emailId, attachments) ==>
              AttachmentRows(first, emailId, attachments)[i] == attachments[i - first].(id := i, emailId := emailId)
  {
    if attachments != [] {
      AttachmentRowAt(first, emailId, attachments[..|attachments| - 1]);
    }
  }

  function StoredAttachments(db: Db, emailId: int, attachments: seq<Attachment>): Db {
    db.(attachments := db.attachments + AttachmentRows(db.nextAttachment, emailId, attachments),
        nextAttachment := db.nextAttachment + |attachments|)
  }

  function StoredMessage(db: Db, email: Email, attachments: seq<Attachment>): Db {
    StoredAttachments(InsertEmail(db, email).0, db.nextEmail, attachments)
  }

  // The statements of the transaction in order: BEGIN, the email, each attachment, COMMIT.
  predicate SaveSucceeds(db: Db, email: Email, attachments: seq<Attachment>, faults: set<nat>) {
    email.inboxId in db.inboxes && forall f <- faults :: |attachments| + 3 <= f
  }

  function SaveMessage(db: Db, email: Email, attachments: seq<Attachment>, faults: set<nat>): (Db, Result<int>) {
    if SaveSucceeds(db, email, attachments, faults)
    then (StoredMessage(db, email, attachments), Ok(db.nextEmail))
    else (db, Err(Failed))
  }
}
