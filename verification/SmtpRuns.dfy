/** What every run of SMTP commands guarantees, whatever happens to the store in between. */
module SmtpRuns {
  import opened Outcome
  import opened Text
  import opened Clock
  import opened Schema
  import opened StoreRuns
  import opened Queries
  import opened Isolation
  import opened Interleaving
  import opened Mime
  import opened Smtp

  // The server turns away further recipients before the session sees them (internal/smtp/backend.go:57).
  const MAX_RECIPIENTS := 1

  datatype Event =
    | Mail(from: string)
    | Rcpt(parsed: Option<string>, allowed: Result<bool>, fails: bool)
    | Data(raw: Raw, decoded: Decoded, maxAttachment: nat, now: int, faults: set<nat>)
    | Reset
    | Other(op: Op)     // anything else done to the store

  ghost function Step(s: State, db: Db, e: Event): (State, Db) {
    match e
    case Mail(from) => (s.(from := from), db)
    case Rcpt(parsed, allowed, fails) =>
      (if MAX_RECIPIENTS <= |s.rcpts| then s else Recipient(s, db, parsed, allowed, fails).0, db)
    case Data(raw, decoded, maxAttachment, now, faults) =>
      (s, Deliver(s, db, raw, decoded, maxAttachment, now, faults).0)
    case Reset => (NEW_SESSION, db)
    case Other(op) => (s, Apply(db, op))
  }

  ghost function Run(s: State, db: Db, events: seq<Event>): (State, Db)
    decreases |events|
  {
    if events == [] then (s, db) else
    var (s', db') := Step(s, db, events[0]);
    Run(s', db', events[1..])
  }

  /** The session's own invariant: it holds an inbox exactly when it has a recipient, the inbox
      row it holds has the recipient's address, and the row with that id, if it is still in the
      store, is the one that was found. */
  ghost predicate Sane(s: State, db: Db) {
    && |s.rcpts| <= MAX_RECIPIENTS
    && (s.inbox.None? <==> s.rcpts == [])
    && (s.inbox.Some? ==>
          && EqualFold(s.inbox.value.address, s.rcpts[|s.rcpts| - 1])
          && s.inbox.value.id < db.nextInbox
          && (s.inbox.value.id in db.inboxes ==> SameInbox(s.inbox.value, db.inboxes[s.inbox.value.id])))
  }

  /** The replies to a recipient, in the order of the checks. A rejected one changes nothing; an accepted one
      becomes the last recipient, and the inbox held is the row whose address is the recipient's, up to
      case. */
  lemma RecipientReply(s: State, db: Db, parsed: Option<string>, allowed: Result<bool>, fails: bool)
    requires Consistent(db)
    ensures var (s', reply) := Recipient(s, db, parsed, allowed, fails);
            var known := parsed.Some? && exists i <- db.inboxes :: SameButCase(db.inboxes[i].address, parsed.value);
            && reply == (if RecipientDomain(parsed).None? then Rejected(550)
                         else if allowed.Err? then Rejected(451)
                         else if !allowed.value then Rejected(550)
                         else if fails then Rejected(451)
                         else if !known then Rejected(550)
                         else Accepted)
            && (reply.Rejected? ==> s' == s)
            && (reply.Accepted? ==>
                  && s'.from == s.from && parsed.Some? && s'.rcpts == s.rcpts + [parsed.value] && s'.inbox.Some?
                  && SameButCase(s'.inbox.value.address, parsed.value)
                  && s'.inbox.value.id in db.inboxes && s'.inbox.value == db.inboxes[s'.inbox.value.id])
  {
    if parsed.Some? {
      AddressesByCase(db, parsed.value);
    }
  }

  lemma SaneOver(s: State, db: Db, later: Db)
    requires Consistent(db) && Sane(s, db) && Evolves(db, later)
    ensures Sane(s, later)
  {}

  lemma DeliverIsSound(s: State, db: Db, raw: Raw, decoded: Decoded, maxAttachment: nat, now: int, faults: set<nat>)
    requires Consistent(db)
    ensures Consistent(Deliver(s, db, raw, decoded, maxAttachment, now, faults).0)
    ensures Evolves(db, Deliver(s, db, raw, decoded, maxAttachment, now, faults).0)
  {
    if raw.Read? && s.inbox.Some? && decoded.header.Some? && Parse(decoded.parts, maxAttachment).Success? {
      var parsed := Parse(decoded.parts, maxAttachment).parsed;
      var email := BuildEmail(s, s.inbox.value, decoded.header.value, parsed, |raw.bytes|, now);
      SaveMessageKeepsConsistent(db, email, parsed.attachments, faults);
      SaveMessageEvolves(db, email, parsed.attachments, faults);
    } else {
      assert Evolves(db, db);
    }
  }

  lemma StepIsSane(s: State, db: Db, e: Event)
    requires Consistent(db) && Sane(s, db)
    ensures Consistent(Step(s, db, e).1) && Sane(Step(s, db, e).0, Step(s, db, e).1)
  {
    match e
    case Rcpt(parsed, allowed, fails) =>
      RecipientReply(s, db, parsed, allowed, fails);
      var s' := Recipient(s, db, parsed, allowed, fails).0;
      if s'.inbox.Some? && parsed.Some? { FoldIff(s'.inbox.value.address, parsed.value); }
    case Data(raw, decoded, maxAttachment, now, faults) =>
      DeliverIsSound(s, db, raw, decoded, maxAttachment, now, faults);
      SaneOver(s, db, Deliver(s, db, raw, decoded, maxAttachment, now, faults).0);
    case Other(op) =>
      StepKeepsConsistent(db, op);
      StepEvolves(db, op);
      SaneOver(s, db, Apply(db, op));
    case _ =>
  }

  /** The invariant holds after every run from a new session. */
  lemma {:induction false} RunIsSane(s: State, db: Db, events: seq<Event>)
    requires Consistent(db) && Sane(s, db)
    ensures Consistent(Run(s, db, events).1) && Sane(Run(s, db, events).0, Run(s, db, events).1)
    decreases |events|
  {
    if events != [] {
      StepIsSane(s, db, events[0]);
      var (s', db') := Step(s, db, events[0]);
      RunIsSane(s', db', events[1..]);
    }
  }

  /** DATA at any point of any run: if it is accepted, exactly one email is added, unread, into
      the inbox row found at RCPT, which still has the recipient's address, and no other inbox's
      rows change; if it is rejected, the store does not change. */
  lemma {:induction false} AcceptedMeansOneEmail(db: Db, events: seq<Event>, raw: Raw, decoded: Decoded,
                                                 maxAttachment: nat, now: int, faults: set<nat>)
    requires Consistent(db)
    ensures var (s, before) := Run(NEW_SESSION, db, events);
            var (after, reply) := Deliver(s, before, raw, decoded, maxAttachment, now, faults);
            && (reply.Rejected? ==> after == before)
            && (reply.Accepted? ==>
                  && |s.rcpts| == 1 && s.inbox.Some? && s.inbox.value.id in before.inboxes
                  && EqualFold(before.inboxes[s.inbox.value.id].address, s.rcpts[0])
                  && before.nextEmail !in before.emails
                  && after.emails.Keys == before.emails.Keys + {before.nextEmail}
                  && after.emails[before.nextEmail].inboxId == s.inbox.value.id
                  && EqualFold(after.emails[before.nextEmail].recipient, s.rcpts[0])
                  && !after.emails[before.nextEmail].isRead
                  && (forall i <- before.emails :: after.emails[i] == before.emails[i])
                  && (forall other :: other != s.inbox.value.id ==> SameSlice(after, before, other)))
  {
    RunIsSane(NEW_SESSION, db, events);
    var (s, before) := Run(NEW_SESSION, db, events);
    if raw.Read? && s.inbox.Some? && decoded.header.Some? && Parse(decoded.parts, maxAttachment).Success? {
      var parsed := Parse(decoded.parts, maxAttachment).parsed;
      StoredForRecipient(before, BuildEmail(s, s.inbox.value, decoded.header.value, parsed, |raw.bytes|, now),
                         parsed.attachments, faults);
    }
  }

  lemma StoredForRecipient(db: Db, email: Email, attachments: seq<Attachment>, faults: set<nat>)
    requires Consistent(db)
    ensures SaveMessage(db, email, attachments, faults).1.Err? ==> SaveMessage(db, email, attachments, faults).0 == db
    ensures SaveMessage(db, email, attachments, faults).1.Ok? ==>
              && email.inboxId in db.inboxes && db.nextEmail !in db.emails
              && SaveMessage(db, email, attachments, faults).0.emails.Keys == db.emails.Keys + {db.nextEmail}
              && SaveMessage(db, email, attachments, faults).0.emails[db.nextEmail]
                 == email.(id := db.nextEmail,
                           subject := SaveMessage(db, email, attachments, faults).0.emails[db.nextEmail].subject)
              && (forall i <- db.emails :: SaveMessage(db, email, attachments, faults).0.emails[i] == db.emails[i])
              && (forall other :: other != email.inboxId ==>
                    SameSlice(SaveMessage(db, email, attachments, faults).0, db, other))
  {
    if SaveSucceeds(db, email, attachments, faults) {
      DeliveryAddsOneEmail(db, email, attachments);
      forall other | other != email.inboxId ensures SameSlice(StoredMessage(db, email, attachments), db, other) {
        SaveStaysHome(db, email, attachments, other);
      }
    }
  }
}
