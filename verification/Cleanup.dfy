/** The background cleanup (runCleanup in internal/worker/cleanup.go). */
module Cleanup {
  import opened Clock
  import opened Schema
  import opened StoreRuns
  import opened Repository

  function Cleaned(db: Db, now: int, later: int): Db {
    RemoveExpiredSessions(RemoveExpiredInboxes(db, now), later)
  }

  // Either statement can fail; a failure ends the run. `now` and `later` are their clock readings.
  method RunCleanup(repo: SQLite, now: int, later: int, inboxesFail: bool, sessionsFail: bool)
    requires repo.Valid()
    modifies repo
    ensures repo.Valid()
    ensures repo.db == if inboxesFail then old(repo.db)
                       else if sessionsFail then RemoveExpiredInboxes(old(repo.db), now)
                       else Cleaned(old(repo.db), now, later)
  {
    if inboxesFail {
      return;
    }
    var _ := repo.DeleteExpiredInboxes(now);
    if sessionsFail {
      return;
    }
    var _ := repo.DeleteExpiredSessions(later);
  }

  /** A cleanup leaves exactly the inboxes that have not expired, all of their mail, and those of
      their sessions that have not expired, as they were. */
  lemma CleanupIsExact(db: Db, now: int, later: int)
    requires Consistent(db)
    ensures Consistent(Cleaned(db, now, later))
    ensures forall i :: i in Cleaned(db, now, later).inboxes <==> i in db.inboxes && db.inboxes[i].expiresAt > Unix(now)
    ensures forall i :: i in Cleaned(db, now, later).emails
                   <==> i in db.emails && db.inboxes[db.emails[i].inboxId].expiresAt > Unix(now)
    ensures forall i :: i in Cleaned(db, now, later).attachments
                   <==> i in db.attachments
                        && db.inboxes[db.emails[db.attachments[i].emailId].inboxId].expiresAt > Unix(now)
    ensures forall t :: t in Cleaned(db, now, later).sessions
                   <==> t in db.sessions && db.sessions[t].expiresAt > Unix(later)
                        && db.inboxes[db.sessions[t].inboxId].expiresAt > Unix(now)
    ensures forall i <- Cleaned(db, now, later).emails :: Cleaned(db, now, later).emails[i] == db.emails[i]
  {
    RemoveInboxesKeepsConsistent(db, ExpiredInboxes(db, now));
    RemoveExpiredSessionsKeepsConsistent(RemoveExpiredInboxes(db, now), later);
  }
}
