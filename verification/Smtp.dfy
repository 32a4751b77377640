/** An inbound SMTP session (internal/smtp/session.go): RCPT resolves the recipient to an inbox
    row, DATA stores the message under that row. */
module Smtp {
  import opened Outcome
  import opened Text
  import opened Clock
  import opened Schema
  import opened StoreRuns
  import opened Repository
  import opened DomainCache
  import opened Mime

  datatype Reply = Accepted | Rejected(code: int)

  datatype State = State(from: string, rcpts: seq<string>, inbox: Option<Inbox>)
  const NEW_SESSION := State("", [], None)

  // What decoding the message's header gives. `senders` is the From list.
  datatype Header = Header(messageId: string, subject: string, senders: seq<(string, string)>, rawHeaders: string)

  // None stands for a header or structure that does not parse.
  datatype Decoded = Decoded(header: Option<Header>, parts: seq<Part>)

  // ----- The commands as functions -----

  // The domain of an address the session goes on with: one '@' and something after it.
  function RecipientDomain(parsed: Option<string>): Option<string> {
    if parsed.None? then None else
    var parts := Split(parsed.value, '@');
    if |parts| != 2 || parts[1] == "" then None else Some(parts[1])
  }

  // `parsed` is what net/mail makes of the argument, `allowed` what domainAllowed answers for
  // its domain, `fails` whether the mailbox lookup fails.
  ghost function Recipient(s: State, db: Db, parsed: Option<string>, allowed: Result<bool>, fails: bool)
    : (State, Reply)
  {
    if RecipientDomain(parsed).None? then (s, Rejected(550))
    else if allowed.Err? then (s, Rejected(451))
    else if !allowed.value then (s, Rejected(550))
    else if fails then (s, Rejected(451))
    else match FindInboxByAddress(db, parsed.value)
         case Err(_) => (s, Rejected(550))
         case Ok(inbox) => (s.(inbox := Some(inbox), rcpts := s.rcpts + [parsed.value]), Accepted)
  }

  function BuildEmail(s: State, inbox: Inbox, header: Header, parsed: Parsed, size: nat, now: int): Email {
    Email(0, inbox.id, header.messageId,
          if header.senders == [] then s.from else header.senders[0].0,
          if header.senders == [] then "" else header.senders[0].1,
          inbox.address,
          if header.subject == "" then "(no subject)" else header.subject,
          parsed.bodyHtml, parsed.bodyText, header.rawHeaders, size, parsed.attachments != [], Unix(now), false)
  }

  function FailureCode(failure: Failure): int {
    if failure.AttachmentTooLarge? then 552 else 554
  }

  function Deliver(s: State, db: Db, raw: Raw, decoded: Decoded, maxAttachment: nat, now: int, faults: set<nat>)
    : (Db, Reply)
  {
    if raw.TooLarge? then (db, Rejected(552))
    else if raw.ReadFailed? then (db, Rejected(451))
    else if s.inbox.None? || s.rcpts == [] then (db, Rejected(554))
    else if decoded.header.None? then (db, Rejected(554))
    else match Parse(decoded.parts, maxAttachment)
         case Refused(failure) => (db, Rejected(FailureCode(failure)))
         case Success(parsed) =>
           var email := BuildEmail(s, s.inbox.value, decoded.header.value, parsed, |raw.bytes|, now);
           var (after, result) := SaveMessage(db, email, parsed.attachments, faults);
           (after, if result.Ok? then Accepted else Rejected(451))
  }

  // ----- The session -----

  class Session {
    const backend: Backend
    const maxEmailSize: nat
    const maxAttachmentSize: nat
    const decode: seq<byte> -> Decoded
    var from: string
    var rcpts: seq<string>
    var inbox: Option<Inbox>

    constructor (backend: Backend, maxEmailSize: nat, maxAttachmentSize: nat, decode: seq<byte> -> Decoded)
      ensures this.backend == backend && this.maxEmailSize == maxEmailSize && this.decode == decode
      ensures this.maxAttachmentSize == maxAttachmentSize && Current() == NEW_SESSION
    {
      this.backend := backend;
      this.maxEmailSize := maxEmailSize;
      this.maxAttachmentSize := maxAttachmentSize;
      this.decode := decode;
      from, rcpts, inbox := "", [], None;
    }

    function Current(): State reads this { State(from, rcpts, inbox) }

    method Mail(from: string)
      modifies this
      ensures Current() == old(Current()).(from := from)
    {
      this.from := from;
    }

    method Rcpt(parsed: Option<string>, asked: int, stored: int, domainFails: bool, lookupFails: bool)
      returns (reply: Reply)
      requires backend.repo.Valid()
      modifies this, backend.domains
      ensures RecipientDomain(parsed).None? ==>
                && reply == Rejected(550) && Current() == old(Current())
                && backend.domains.entries == old(backend.domains.entries)
      ensures RecipientDomain(parsed).Some? ==>
                var (entries, allowed) :=
                  Allowed(old(backend.domains.entries), backend.domains.ttl, backend.repo.db,
                          RecipientDomain(parsed).value, asked, stored, domainFails);
                && backend.domains.entries == entries
                && (Current(), reply) == Recipient(old(Current()), backend.repo.db, parsed, allowed, lookupFails)
    {
      if parsed.None? {
        return Rejected(550);
      }
      var parts := Split(parsed.value, '@');
      if |parts| != 2 || parts[1] == "" {
        return Rejected(550);
      }
      var allowed := backend.DomainAllowed(parts[1], asked, stored, domainFails);
      if allowed.Err? {
        return Rejected(451);
      }
      if !allowed.value {
        return Rejected(550);
      }
      if lookupFails {
        return Rejected(451);
      }
      var found := backend.repo.GetInboxByAddress(parsed.value);
      if found.Err? {
        return Rejected(550);
      }
      inbox := Some(found.value);
      rcpts := rcpts + [parsed.value];
      reply := Accepted;
    }

    method Data(r: Reader, now: int, faults: set<nat>) returns (reply: Reply)
      requires backend.repo.Valid()
      modifies r, backend.repo
      ensures backend.repo.Valid() && r.chunks == []
      ensures !r.fails ==>
                var all := Bytes(old(r.chunks));
                var raw := if |all| <= maxEmailSize then Read(all) else TooLarge;
                (backend.repo.db, reply)
                == Deliver(Current(), old(backend.repo.db), raw, decode(all), maxAttachmentSize, now, faults)
      ensures r.fails ==> backend.repo.db == old(backend.repo.db) && (reply == Rejected(451) || reply == Rejected(552))
      ensures r.fails && |Bytes(old(r.chunks))| <= maxEmailSize ==> reply == Rejected(451)
      ensures r.fails && |Bytes(old(r.chunks))| > maxEmailSize + 1 ==> reply == Rejected(552)
    {
      var raw := ReadRawMessage(r, maxEmailSize);
      match raw
      case TooLarge => return Rejected(552);
      case ReadFailed => return Rejected(451);
      case Read(bytes) =>
        if inbox.None? || rcpts == [] {
          return Rejected(554);
        }
        var decoded := decode(bytes);
        if decoded.header.None? {
          return Rejected(554);
        }
        var parsed := ParseParts(decoded.parts, maxAttachmentSize);
        if parsed.Refused? {
          return Rejected(FailureCode(parsed.failure));
        }
        var email := BuildEmail(Current(), inbox.value, decoded.header.value, parsed.parsed, |bytes|, now);
        var saved := backend.repo.SaveInboundMessage(email, parsed.parsed.attachments, faults);
        reply := if saved.Ok? then Accepted else Rejected(451);
    }

    method Reset()
      modifies this
      ensures Current() == NEW_SESSION
    {
      from, rcpts, inbox := "", [], None;
    }
  }
}
