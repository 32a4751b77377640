/** The repository of internal/repository/sqlite.go. A method issues its statements one after
    the other on the single connection; `now` stands for the clock reading of a statement. */
module Repository {
  import opened Outcome
  import opened Text
  import opened Clock
  import opened Schema
  import opened StoreRuns
  import opened Ordering
  import opened Queries

  class SQLite {
    var db: Db

    ghost predicate Valid() reads this { Consistent(db) }

    constructor ()
      ensures Valid() && db == EMPTY
    {
      db := EMPTY;
    }

    // ----- Inboxes -----

    method CreateInbox(address: string, localPart: string, token: string, passwordHash: string,
                       expiresAt: int, now: int) returns (result: Result<Inbox>)
      requires Valid()
      modifies this
      ensures Valid()
      ensures (db, result) == InsertInbox(old(db), address, localPart, token, passwordHash, expiresAt, now)
      ensures result.Ok? <==> forall i <- old(db).inboxes ::
                !SameButCase(old(db).inboxes[i].address, address) && old(db).inboxes[i].token != token
      ensures result.Ok? ==>
                && result.value == Inbox(old(db).nextInbox, address, localPart, token, passwordHash,
                                         Unix(now), Unix(now), Unix(expiresAt))
                && db == old(db).(inboxes := old(db).inboxes[old(db).nextInbox := result.value],
                                  nextInbox := old(db).nextInbox + 1)
      ensures result.Err? ==> db == old(db) && result.error == Conflict
    {
      AddressesByCase(db, address);
      InsertInboxKeepsConsistent(db, address, localPart, token, passwordHash, expiresAt, now);
      var (after, inserted) := InsertInbox(db, address, localPart, token, passwordHash, expiresAt, now);
      assert inserted.Ok? ==> after.inboxes[inserted.value.id] == inserted.value;
      db := after;
      if inserted.Err? {
        return inserted;
      }
      // SELECT id, created_at, last_accessed_at FROM inboxes WHERE id = ?
      var i :| i in db.inboxes && db.inboxes[i].id == inserted.value.id;
      result := Ok(db.inboxes[i]);
    }

    method GetInboxByAddress(address: string) returns (result: Result<Inbox>)
      requires Valid()
      ensures result == FindInboxByAddress(db, address)
      ensures result.Ok? <==> exists i <- db.inboxes :: SameButCase(db.inboxes[i].address, address)
      ensures result.Ok? ==>
                && result.value.id in db.inboxes && db.inboxes[result.value.id] == result.value
                && SameButCase(result.value.address, address)
      ensures result.Err? ==> result.error == NotFound
    {
      AddressesByCase(db, address);
      if i :| i in db.inboxes && EqualFold(db.inboxes[i].address, address) {
        result := Ok(db.inboxes[i]);
      } else {
        result := Err(NotFound);
      }
    }

    method UpdateLastAccessed(inboxId: int, now: int) returns (result: Result<()>)
      requires Valid()
      modifies this
      ensures Valid() && (db, result) == SetLastAccessed(old(db), inboxId, now)
      ensures result == if inboxId in old(db).inboxes then Ok(()) else Err(NotFound)
      ensures result.Ok? ==>
                db == old(db).(inboxes := old(db).inboxes[inboxId := old(db).inboxes[inboxId].(
                        lastAccessedAt := Unix(now))])
      ensures result.Err? ==> db == old(db)
    {
      SetLastAccessedKeepsConsistent(db, inboxId, now);
      var (after, r) := SetLastAccessed(db, inboxId, now);
      db, result := after, r;
    }

    method DeleteExpiredInboxes(now: int) returns (rows: nat)
      requires Valid()
      modifies this
      ensures Valid() && db == RemoveExpiredInboxes(old(db), now)
      ensures rows == |old(db).inboxes| - |db.inboxes|
    {
      var expired := ExpiredInboxes(db, now);
      CascadeFromInboxes(db, expired);
      RemoveInboxesKeepsConsistent(db, expired);
      rows := |expired|;
      RowsLeft(db.inboxes, expired);
      db := DropOrphans(db.(inboxes := db.inboxes - expired));
    }

    // ----- Emails and attachments -----

    // `faults` are the positions of the transaction's statements that fail: BEGIN, the email,
    // each attachment, COMMIT.
    method SaveInboundMessage(email: Email, attachments: seq<Attachment>, faults: set<nat>)
      returns (result: Result<int>)
      requires Valid()
      modifies this
      ensures Valid()
      ensures result.Ok? <==> email.inboxId in old(db).inboxes && forall f <- faults :: |attachments| + 3 <= f
      ensures result.Ok? ==>
                result.value == old(db).nextEmail && db == StoredMessage(old(db), email, attachments)
      ensures result.Err? ==> db == old(db) && result.error == Failed
    {
      if 0 in faults {
        return Err(Failed);
      }
      var snapshot := db;
      var (withEmail, inserted) := InsertEmail(db, email);
      if 1 in faults || inserted.Err? {
        return Err(Failed);
      }
      InsertEmailKeepsConsistent(db, email);
      db := withEmail;
      var id := inserted.value.id;
      for i := 0 to |attachments|
        invariant db == StoredAttachments(withEmail, id, attachments[..i])
        invariant forall f <- faults :: i + 2 <= f
      {
        NextAttachment(withEmail, id, attachments, i);
        var (after, stored) := InsertAttachment(db, attachments[i].(emailId := id));
        if i + 2 in faults || stored.Err? {
          db := snapshot;
          return Err(Failed);
        }
        db := after;
      }
      assert attachments[..|attachments|] == attachments;
      if |attachments| + 2 in faults {
        db := snapshot;
        return Err(Failed);
      }
      StoreAttachmentsKeepsConsistent(withEmail, id, attachments);
      result := Ok(id);
    }

    method GetEmailsByInboxID(inboxId: int, limit: int, offset: int) returns (emails: seq<Email>)
      requires Valid()
      ensures emails == EmailPage(db, inboxId, limit, offset)
    {
      var limit' := if limit <= 0 then 50 else limit;
      var offset' := if offset < 0 then 0 else offset;
      EmailsAreOrdered(db, inboxId);
      ghost var all, passed := Listing(db, inboxId), [];
      var rest, skipped := EmailsOf(db, inboxId), 0;
      emails := [];
      while rest != {} && |emails| < limit'
        invariant Cursor(NewestFirst, all, passed, rest)
        invariant Handed(passed, emails, skipped, limit', offset')
        decreases |rest|
      {
        var row, left := FetchNext(NewestFirst, all, passed, rest);
        HandedNext(passed, emails, skipped, limit', offset', row);
        if skipped < offset' {
          skipped := skipped + 1;
        } else {
          emails := emails + [row];
        }
        passed, rest := passed + [row], left;
      }
      HandedAll(NewestFirst, all, passed, rest, emails, skipped, limit, offset);
    }

    method GetEmailByID(inboxId: int, emailId: int) returns (result: Result<Email>)
      requires Valid()
      ensures result == FindEmail(db, inboxId, emailId)
      ensures result.Ok? <==> emailId in db.emails && db.emails[emailId].inboxId == inboxId
      ensures result == if result.Ok? then Ok(db.emails[emailId]) else Err(NotFound)
    {
      if i :| i in db.emails && db.emails[i].inboxId == inboxId && db.emails[i].id == emailId {
        return Ok(db.emails[i]);
      }
      result := Err(NotFound);
    }

    method MarkEmailAsRead(emailId: int) returns (result: Result<()>)
      requires Valid()
      modifies this
      ensures Valid() && (db, result) == MarkRead(old(db), emailId)
      ensures result == if emailId in old(db).emails then Ok(()) else Err(NotFound)
      ensures result.Ok? ==>
                db == old(db).(emails := old(db).emails[emailId := old(db).emails[emailId].(isRead := true)])
      ensures result.Err? ==> db == old(db)
    {
      MarkReadKeepsConsistent(db, emailId);
      var (after, r) := MarkRead(db, emailId);
      db, result := after, r;
    }

    method GetUnreadCount(inboxId: int) returns (count: nat)
      requires Valid()
      ensures count == UnreadCount(db, inboxId)
      ensures count == 0 <==> forall e <- Listing(db, inboxId) :: e.isRead
    {
      var rows := set row | row in EmailsOf(db, inboxId) && !row.isRead;
      count := |rows|;
      RowsAreIds(db, rows, UnreadIds(db, inboxId));
      NoneUnread(db, inboxId);
    }

    method DeleteEmail(inboxId: int, emailId: int) returns (result: Result<()>)
      requires Valid()
      modifies this
      ensures Valid() && (db, result) == RemoveEmail(old(db), inboxId, emailId)
      ensures result == if emailId in old(db).emails && old(db).emails[emailId].inboxId == inboxId
                        then Ok(()) else Err(NotFound)
      ensures result.Err? ==> db == old(db)
    {
      if emailId !in db.emails || db.emails[emailId].inboxId != inboxId {
        return Err(NotFound);
      }
      RemoveEmailKeepsConsistent(db, inboxId, emailId);
      CascadeFromEmail(db, inboxId, emailId);
      db := DropOrphans(db.(emails := db.emails - {emailId}));
      result := Ok(());
    }

    method GetAttachmentsByEmailID(emailId: int) returns (attachments: seq<Attachment>)
      requires Valid()
      ensures attachments == ListedAttachments(db, emailId)
    {
      AttachmentsAreOrdered(db, emailId);
      ghost var all := ListedAttachments(db, emailId);
      var rest := AttachmentsOf(db, emailId);
      attachments := [];
      while rest != {}
        invariant Cursor(ById, all, attachments, rest)
        decreases |rest|
      {
        var row, left := FetchNext(ById, all, attachments, rest);
        attachments, rest := attachments + [row], left;
      }
    }

    method GetAttachment(attachmentId: int) returns (result: Result<Attachment>)
      requires Valid()
      ensures result == FindAttachment(db, attachmentId)
      ensures result == if attachmentId in db.attachments then Ok(db.attachments[attachmentId]) else Err(NotFound)
    {
      if i :| i in db.attachments && db.attachments[i].id == attachmentId {
        return Ok(db.attachments[i]);
      }
      result := Err(NotFound);
    }

    // ----- Domains -----

    method CreateDomain(name: string, now: int) returns (result: Result<Domain>)
      requires Valid()
      modifies this
      ensures Valid() && (db, result) == InsertDomain(old(db), name, now)
      ensures result.Ok? <==> forall i <- old(db).domains :: !SameButCase(old(db).domains[i].name, Lower(Trim(name)))
      ensures result.Ok? ==>
                && result.value == Domain(old(db).nextDomain, Lower(Trim(name)), true, Unix(now))
                && db == old(db).(domains := old(db).domains[old(db).nextDomain := result.value],
                                  nextDomain := old(db).nextDomain + 1)
      ensures result.Err? ==> db == old(db) && result.error == Conflict
    {
      NamesByCase(db, Lower(Trim(name)));
      InsertDomainKeepsConsistent(db, name, now);
      var (after, inserted) := InsertDomain(db, name, now);
      assert inserted.Ok? ==> after.domains[inserted.value.id] == inserted.value;
      db := after;
      if inserted.Err? {
        return inserted;
      }
      // SELECT id, name, enabled, created_at FROM domains WHERE id = ?
      var i :| i in db.domains && db.domains[i].id == inserted.value.id;
      result := Ok(db.domains[i]);
    }

    method GetDomain(name: string) returns (result: Result<Domain>)
      requires Valid()
      ensures result == FindDomain(db, name)
    {
      if i :| i in db.domains && EqualFold(db.domains[i].name, Trim(name)) {
        result := Ok(db.domains[i]);
      } else {
        result := Err(NotFound);
      }
    }

    method SetDomainEnabled(name: string, enabled: bool) returns (result: Result<()>)
      requires Valid()
      modifies this
      ensures Valid() && (db, result) == SetEnabled(old(db), name, enabled)
      ensures result == if DomainTaken(old(db), Trim(name)) then Ok(()) else Err(NotFound)
      ensures forall i <- old(db).domains :: i in db.domains
                && db.domains[i] == if SameButCase(old(db).domains[i].name, Trim(name))
                                    then old(db).domains[i].(enabled := enabled) else old(db).domains[i]
    {
      NamesByCase(db, Trim(name));
      SetEnabledKeepsConsistent(db, name, enabled);
      var (after, r) := SetEnabled(db, name, enabled);
      db, result := after, r;
    }

    // `fails` stands for a statement that fails for any reason but an empty result.
    method IsDomainEnabled(name: string, fails: bool) returns (result: Result<bool>)
      requires Valid()
      ensures result.Err? <==> fails
      ensures fails ==> result.error == Failed
      ensures !fails ==> result.value == DomainEnabled(db, name)
      ensures !fails ==> (result.value <==> FindDomain(db, name).Ok? && FindDomain(db, name).value.enabled)
    {
      if fails {
        return Err(Failed);
      }
      if i :| i in db.domains && EqualFold(db.domains[i].name, Trim(name)) && db.domains[i].enabled {
        return Ok(true);
      }
      result := Ok(false);
    }

    // ----- Sessions -----

    method CreateSession(token: string, inboxId: int, expiresAt: int, now: int) returns (result: Result<()>)
      requires Valid()
      modifies this
      ensures Valid() && (db, result) == InsertSession(old(db), token, inboxId, expiresAt, now)
      ensures result == if token in old(db).sessions then Err(Conflict)
                        else if inboxId !in old(db).inboxes then Err(Failed) else Ok(())
      ensures result.Ok? ==>
                db == old(db).(sessions := old(db).sessions[token :=
                        Session(token, inboxId, Unix(now), Unix(expiresAt))])
      ensures result.Err? ==> db == old(db)
    {
      InsertSessionKeepsConsistent(db, token, inboxId, expiresAt, now);
      var (after, r) := InsertSession(db, token, inboxId, expiresAt, now);
      db, result := after, r;
    }

    method GetSession(token: string, now: int) returns (result: Result<(Session, Inbox)>)
      requires Valid()
      ensures result == FindSession(db, token, now)
      ensures result.Ok? <==> token in db.sessions && Unix(now) < db.sessions[token].expiresAt
      ensures result.Ok? ==> result.value.0 == db.sessions[token]
      ensures result.Ok? ==> result.value.1 == db.inboxes[db.sessions[token].inboxId]
    {
      if t, i :| t in db.sessions && i in db.inboxes && db.inboxes[i].id == db.sessions[t].inboxId
                 && db.sessions[t].token == token && db.sessions[t].expiresAt > Unix(now)
      {
        return Ok((db.sessions[t], db.inboxes[i]));
      }
      assert token in db.sessions ==> db.sessions[token].inboxId in db.inboxes;
      result := Err(NotFound);
    }

    method DeleteSession(token: string) returns (result: Result<()>)
      requires Valid()
      modifies this
      ensures Valid() && (db, result) == RemoveSession(old(db), token)
      ensures result == if token in old(db).sessions then Ok(()) else Err(NotFound)
      ensures db == old(db).(sessions := old(db).sessions - {token})
    {
      RemoveSessionKeepsConsistent(db, token);
      assert token !in db.sessions ==> db.sessions - {token} == db.sessions;
      var (after, r) := RemoveSession(db, token);
      db, result := after, r;
    }

    method TouchSession(token: string, expiresAt: int) returns (result: Result<()>)
      requires Valid()
      modifies this
      ensures Valid() && (db, result) == Touch(old(db), token, expiresAt)
      ensures result == if token in old(db).sessions then Ok(()) else Err(NotFound)
      ensures result.Ok? ==>
                db == old(db).(sessions := old(db).sessions[token := old(db).sessions[token].(
                        expiresAt := Unix(expiresAt))])
      ensures result.Err? ==> db == old(db)
    {
      TouchKeepsConsistent(db, token, expiresAt);
      var (after, r) := Touch(db, token, expiresAt);
      db, result := after, r;
    }

    method DeleteExpiredSessions(now: int) returns (rows: nat)
      requires Valid()
      modifies this
      ensures Valid() && db == RemoveExpiredSessions(old(db), now)
      ensures rows == |old(db).sessions| - |db.sessions|
    {
      RemoveExpiredSessionsKeepsConsistent(db, now);
      var expired := set t | t in db.sessions && db.sessions[t].expiresAt <= Unix(now);
      rows := |expired|;
      RowsLeft(db.sessions, expired);
      assert db.sessions - expired == RemoveExpiredSessions(db, now).sessions;
      db := db.(sessions := db.sessions - expired);
    }

    // ----- Settings -----

    method GetSetting(key: string) returns (result: Result<string>)
      ensures result.Ok? <==> key in db.settings
      ensures result.Ok? ==> result.value == db.settings[key]
      ensures result.Err? ==> result.error == NotFound
      ensures result == FindSetting(db, key)
    {
      if key in db.settings {
        return Ok(db.settings[key]);
      }
      result := Err(NotFound);
    }

    method SetSetting(key: string, value: string)
      requires Valid()
      modifies this
      ensures Valid() && db == PutSetting(old(db), key, value)
    {
      db := PutSetting(db, key, value);
    }
  }

  lemma RowsLeft<K, V>(rows: map<K, V>, gone: set<K>)
    requires gone <= rows.Keys
    ensures |rows - gone| == |rows| - |gone|
  {
    assert rows.Keys == (rows - gone).Keys + gone;
    assert |rows.Keys| == |(rows - gone).Keys| + |gone|;
  }

  lemma Member<T>(s: set<T>) returns (x: T)
    requires s != {}
    ensures x in s
  {
    x :| x in s;
  }

  // COUNT(*) over rows is a count of their keys.
  lemma {:induction false} RowsAreIds(db: Db, rows: set<Email>, ids: set<int>)
    requires forall i <- ids :: i in db.emails && db.emails[i].id == i && db.emails[i] in rows
    requires forall row <- rows :: row.id in ids && db.emails[row.id] == row
    ensures |rows| == |ids|
    decreases |ids|
  {
    if ids == {} {
      assert forall row :: row !in rows;
      assert rows == {};
    } else {
      var i := Member(ids);
      var row := db.emails[i];
      assert |rows - {row}| == |rows| - 1;
      RowsAreIds(db, rows - {row}, ids - {i});
    }
  }

  lemma NoneUnread(db: Db, inboxId: int)
    requires Keyed(db)
    ensures UnreadCount(db, inboxId) == 0 <==> forall e <- Listing(db, inboxId) :: e.isRead
  {
    EmailsAreOrdered(db, inboxId);
    assert forall e :: e in Listing(db, inboxId) <==> e in EmailsOf(db, inboxId);
    if UnreadIds(db, inboxId) == {} {
      forall e | e in EmailsOf(db, inboxId) ensures e.isRead {
        assert e.id !in UnreadIds(db, inboxId);
      }
    } else {
      var i := Member(UnreadIds(db, inboxId));
      assert db.emails[i] in EmailsOf(db, inboxId);
    }
  }

  // Of the rows that passed, the first `skipped` were dropped and the others kept.
  ghost predicate Handed<T>(passed: seq<T>, kept: seq<T>, skipped: nat, limit: nat, offset: nat) {
    && |passed| == skipped + |kept| && kept == passed[skipped..]
    && skipped <= offset && |kept| <= limit && (kept != [] ==> skipped == offset)
  }

  lemma HandedNext<T>(passed: seq<T>, kept: seq<T>, skipped: nat, limit: nat, offset: nat, row: T)
    requires Handed(passed, kept, skipped, limit, offset) && |kept| < limit
    ensures if skipped < offset then Handed(passed + [row], kept, skipped + 1, limit, offset)
            else Handed(passed + [row], kept + [row], skipped, limit, offset)
  {}

  // What has been kept when the cursor is at its end or enough has been kept.
  lemma HandedAll<T(!new)>(before: (T, T) -> bool, all: seq<T>, passed: seq<T>, rest: set<T>, kept: seq<T>,
                           skipped: nat, limit: int, offset: int)
    requires Cursor(before, all, passed, rest)
    requires var limit' := if limit <= 0 then 50 else limit;
             var offset' := if offset < 0 then 0 else offset;
             Handed(passed, kept, skipped, limit', offset') && (rest == {} || |kept| == limit')
    ensures kept == Window(all, limit, offset)
  {
    assert passed <= all;
    if rest == {} {
      assert passed == all;
    }
  }

  lemma InsertNext(db: Db, rows: map<int, Attachment>, i: nat, row: Attachment)
    requires row.emailId in db.emails
    ensures var next := db.nextAttachment + i;
            InsertAttachment(db.(attachments := db.attachments + rows, nextAttachment := next), row)
            == (db.(attachments := db.attachments + rows[next := row.(id := next)], nextAttachment := next + 1),
                Ok(row.(id := next)))
  {
    var next := db.nextAttachment + i;
    assert db.attachments + rows[next := row.(id := next)] == (db.attachments + rows)[next := row.(id := next)];
  }

  lemma {:induction false} NextRow(first: int, emailId: int, attachments: seq<Attachment>, i: nat)
    requires i < |attachments|
    ensures AttachmentRows(first, emailId, attachments[..i + 1])
         == AttachmentRows(first, emailId, attachments[..i])
              [first + i := attachments[i].(id := first + i, emailId := emailId)]
  {
    assert attachments[..i + 1][..i] == attachments[..i];
  }

  // One more turn of the attachment loop.
  lemma NextAttachment(db: Db, emailId: int, attachments: seq<Attachment>, i: nat)
    requires i < |attachments| && emailId in db.emails
    ensures InsertAttachment(StoredAttachments(db, emailId, attachments[..i]), attachments[i].(emailId := emailId)).0
         == StoredAttachments(db, emailId, attachments[..i + 1])
    ensures InsertAttachment(StoredAttachments(db, emailId, attachments[..i]), attachments[i].(emailId := emailId))
              .1.Ok?
  {
    NextRow(db.nextAttachment, emailId, attachments, i);
    InsertNext(db, AttachmentRows(db.nextAttachment, emailId, attachments[..i]), i,
               attachments[i].(emailId := emailId));
  }
}
