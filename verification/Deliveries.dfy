/** What DATA answers and what an accepted message leaves to read, at any point of any run of SMTP commands. */
module Deliveries {
  import opened Outcome
  import opened Text
  import opened Clock
  import opened Schema
  import opened StoreRuns
  import opened Queries
  import opened Mime
  import opened Smtp
  import opened SmtpRuns

  /** Every field of the row but its id and the inbox it belongs to. */
  ghost predicate Reports(email: Email, s: State, header: Header, parts: seq<Part>, size: nat, now: int) {
    && email.messageId == header.messageId
    && (if header.senders == [] then email.sender == s.from && email.senderName == ""
        else (email.sender, email.senderName) == header.senders[0])
    && email.subject == (if header.subject == "" then "(no subject)" else header.subject)
    && FirstText(parts, "text/plain", email.bodyText) && FirstText(parts, "text/html", email.bodyHtml)
    && email.rawHeaders == header.rawHeaders
    && email.sizeBytes == size
    && (email.hasAttachments <==> exists i :: 0 <= i < |parts| && parts[i].Attached?)
    && email.receivedAt == Unix(now)
    && !email.isRead
  }

  /** One row for each attachment part, made from it, in the order of the parts. */
  ghost predicate Keeps(rows: seq<Attachment>, emailId: int, parts: seq<Part>) {
    && |rows| == |AttachedAt(parts)|
    && (forall i :: 0 <= i < |parts| && parts[i].Attached? ==>
          |AttachedAt(parts[..i])| < |rows| && MadeFrom(rows[|AttachedAt(parts[..i])|], parts[i]))
    && (forall k :: 0 <= k < |rows| ==> rows[k].emailId == emailId)
  }

  lemma {:induction false} AttachmentsAreMade(parts: seq<Part>, maxAttachment: nat, first: int, emailId: int)
    requires Parse(parts, maxAttachment).Success?
    ensures Keeps(Delivered(Parse(parts, maxAttachment).parsed.attachments, first, emailId), emailId, parts)
    ensures AttachmentsIn(parts) != [] <==> exists i :: 0 <= i < |parts| && parts[i].Attached?
  {
    ParseMeans(parts, maxAttachment);
    OneAttachmentEach(parts);
    forall i | 0 <= i < |parts| && parts[i].Attached?
      ensures |AttachedAt(parts[..i])| < |AttachmentsIn(parts)|
              && MadeFrom(AttachmentsIn(parts)[|AttachedAt(parts[..i])|], parts[i])
    {
      AttachmentsInOrder(parts, maxAttachment, i);
    }
    if forall i :: 0 <= i < |parts| ==> !parts[i].Attached? {
      assert forall i :: i !in AttachedAt(parts);
      assert AttachedAt(parts) == {};
    }
  }

  /** `after` holds one new email under the id: all it should report, with its attachments, for the inbox the
      session holds. The attachments of every other email are as before. */
  ghost predicate StoredWhole(s: State, before: Db, after: Db, id: int, header: Header, parts: seq<Part>, size: nat,
                              now: int)
    requires Keyed(before) && Keyed(after)
  {
    && id in after.emails
    && Reports(after.emails[id], s, header, parts, size, now)
    && s.inbox.Some? && after.emails[id].inboxId == s.inbox.value.id
    && after.emails[id].recipient == s.inbox.value.address
    && Keeps(ListedAttachments(after, id), id, parts)
    && forall i <- before.emails :: ListedAttachments(after, i) == ListedAttachments(before, i)
  }

  lemma DeliverStores(s: State, db: Db, raw: Raw, decoded: Decoded, maxAttachment: nat, now: int, faults: set<nat>)
    requires Consistent(db) && Deliver(s, db, raw, decoded, maxAttachment, now, faults).1.Accepted?
    ensures raw.Read? && s.inbox.Some? && decoded.header.Some?
    ensures Keyed(Deliver(s, db, raw, decoded, maxAttachment, now, faults).0)
    ensures StoredWhole(s, db, Deliver(s, db, raw, decoded, maxAttachment, now, faults).0, db.nextEmail,
                        decoded.header.value, decoded.parts, |raw.bytes|, now)
  {
    var parsed := Parse(decoded.parts, maxAttachment).parsed;
    var email := BuildEmail(s, s.inbox.value, decoded.header.value, parsed, |raw.bytes|, now);
    ParseMeans(decoded.parts, maxAttachment);
    AttachmentsAreMade(decoded.parts, maxAttachment, db.nextAttachment, db.nextEmail);
    SaveMessageKeepsConsistent(db, email, parsed.attachments, faults);
    DeliveryAddsOneEmail(db, email, parsed.attachments);
    DeliveryReadsBack(db, email, parsed.attachments);
  }

  /** A message accepted at any point of any run is stored whole. The new row has the header's message id,
      sender and subject, the first text bodies, the byte count and the time of reading; its attachments are
      the attachment parts in order, each with its own name, type and bytes, and there are no others. Its
      recipient is, up to case, the one recipient accepted. */
  lemma {:induction false} AcceptedIsStoredWhole(db: Db, events: seq<Event>, raw: Raw, decoded: Decoded,
                                                 maxAttachment: nat, now: int, faults: set<nat>)
    requires Consistent(db)
    ensures Consistent(Run(NEW_SESSION, db, events).1)
    ensures var (s, before) := Run(NEW_SESSION, db, events);
            var (after, reply) := Deliver(s, before, raw, decoded, maxAttachment, now, faults);
            reply.Accepted? ==>
              && raw.Read? && decoded.header.Some? && Keyed(after)
              && StoredWhole(s, before, after, before.nextEmail, decoded.header.value, decoded.parts, |raw.bytes|, now)
              && |s.rcpts| == 1 && SameButCase(s.inbox.value.address, s.rcpts[0])
  {
    RunIsSane(NEW_SESSION, db, events);
    SaneDelivery(Run(NEW_SESSION, db, events).0, Run(NEW_SESSION, db, events).1, raw, decoded, maxAttachment, now,
                 faults);
  }

  lemma SaneDelivery(s: State, before: Db, raw: Raw, decoded: Decoded, maxAttachment: nat, now: int, faults: set<nat>)
    requires Consistent(before) && Sane(s, before)
    ensures var (after, reply) := Deliver(s, before, raw, decoded, maxAttachment, now, faults);
            reply.Accepted? ==>
              && raw.Read? && decoded.header.Some? && Keyed(after)
              && StoredWhole(s, before, after, before.nextEmail, decoded.header.value, decoded.parts, |raw.bytes|, now)
              && |s.rcpts| == 1 && SameButCase(s.inbox.value.address, s.rcpts[0])
  {
    if Deliver(s, before, raw, decoded, maxAttachment, now, faults).1.Accepted? {
      DeliverStores(s, before, raw, decoded, maxAttachment, now, faults);
      FoldIff(s.inbox.value.address, s.rcpts[0]);
    }
  }

  /** The reply to DATA at any point of any run, in the order of the checks: the size of the message, its
      reading, the recipient, the header, the parts, and the transaction, which fails exactly if the
      recipient's inbox is gone by now or one of its statements fails. */
  lemma {:induction false} DataReplies(db: Db, events: seq<Event>, raw: Raw, decoded: Decoded, maxAttachment: nat,
                                       now: int, faults: set<nat>)
    requires Consistent(db)
    ensures var (s, before) := Run(NEW_SESSION, db, events);
            var reply := Deliver(s, before, raw, decoded, maxAttachment, now, faults).1;
            && (raw.TooLarge? ==> reply == Rejected(552))
            && (raw.ReadFailed? ==> reply == Rejected(451))
            && (raw.Read? && (s.rcpts == [] || decoded.header.None?) ==> reply == Rejected(554))
            && (raw.Read? && s.rcpts != [] && decoded.header.Some? ==>
                  && s.inbox.Some?
                  && (forall i :: FirstBad(decoded.parts, maxAttachment, i) ==>
                        reply == Rejected(if TooBig(decoded.parts[i], maxAttachment) then 552 else 554))
                  && ((forall i :: 0 <= i < |decoded.parts| ==> Sound(decoded.parts[i], maxAttachment)) ==>
                        reply == if s.inbox.value.id in before.inboxes
                                    && (forall f <- faults :: |AttachedAt(decoded.parts)| + 3 <= f)
                                 then Accepted else Rejected(451)))
  {
    RunIsSane(NEW_SESSION, db, events);
    ParseMeans(decoded.parts, maxAttachment);
    OneAttachmentEach(decoded.parts);
  }
}
