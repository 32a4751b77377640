/** RCPT together with the cache of enabled domains: when a recipient's domain gets it turned away. */
module RecipientDomains {
  import opened Outcome
  import opened Text
  import opened Clock
  import opened Schema
  import opened DomainCache
  import opened Smtp
  import Coherence

  /** The domain asked about is what follows the address's only '@', if anything does. */
  lemma RecipientDomainIff(parsed: Option<string>, domain: string)
    ensures RecipientDomain(parsed) == Some(domain)
       <==> parsed.Some? && domain != "" && '@' !in domain
            && exists i :: 0 <= i < |parsed.value| && parsed.value[i] == '@' && '@' !in parsed.value[..i]
                           && parsed.value[i + 1..] == domain
  {
    if parsed.Some? {
      var address := parsed.value;
      SplitMeans(address, '@');
      if i :| 0 <= i < |address| && address[i] == '@' && '@' !in address[..i] && address[i + 1..] == domain
              && '@' !in domain
      {
        assert address == address[..i] + ['@'] + domain;
        SplitAround(address[..i], domain, '@');
      }
      if RecipientDomain(parsed) == Some(domain) {
        var parts := Split(address, '@');
        assert parts == [parts[0], domain];
        assert Join(parts, '@') == parts[0] + ['@'] + domain;
        assert address[|parts[0]|] == '@' && address[..|parts[0]|] == parts[0];
      }
    }
  }

  // RCPT without interruption, as Smtp.Session.Rcpt answers it.
  ghost function RcptReply(s: State, db: Db, entries: Entries, ttl: int, parsed: Option<string>, asked: int,
                           stored: int, domainFails: bool, lookupFails: bool): Reply
    requires RecipientDomain(parsed).Some?
  {
    var allowed := Allowed(entries, ttl, db, RecipientDomain(parsed).value, asked, stored, domainFails).1;
    Recipient(s, db, parsed, allowed, lookupFails).1
  }

  /** A well-formed recipient with an inbox is accepted exactly when that inbox can be looked up and the
      cache holds an unexpired yes for its domain or, holding nothing for it, is told by the table that
      the domain is enabled. */
  lemma AcceptedIff(s: State, db: Db, entries: Entries, ttl: int, parsed: Option<string>, asked: int, stored: int,
                    domainFails: bool, lookupFails: bool)
    requires RecipientDomain(parsed).Some? && AddressTaken(db, parsed.value)
    ensures var domain := Lower(RecipientDomain(parsed).value);
            RcptReply(s, db, entries, ttl, parsed, asked, stored, domainFails, lookupFails).Accepted?
            <==> !lookupFails
                 && match Cached(entries, domain, asked)
                    case Some(enabled) => enabled
                    case None => !domainFails && DomainEnabled(db, domain)
  {}

  // A mailbox on a domain that is disabled.
  function OnDisabledDomain(local: string, domain: string): Db {
    EMPTY.(inboxes := map[1 := Inbox(1, local + "@" + domain, local, "token", "hash", 0, 0, Unix(NEVER_EXPIRES))],
           nextInbox := 2, domains := map[1 := Domain(1, domain, false, 0)], nextDomain := 2)
  }

  /** A mailbox on a disabled domain gets no mail, contrary to what is documented: RCPT to its own
      address is turned away. */
  lemma MailboxOnDisabledDomain(s: State, local: string, domain: string, ttl: int, asked: int, stored: int)
    requires '@' !in local && '@' !in domain && domain != ""
    ensures Consistent(OnDisabledDomain(local, domain))
    ensures AddressTaken(OnDisabledDomain(local, domain), local + "@" + domain)
    ensures RecipientDomain(Some(local + "@" + domain)) == Some(domain)
    ensures RcptReply(s, OnDisabledDomain(local, domain), map[], ttl, Some(local + "@" + domain), asked, stored,
                      false, false)
         == Rejected(550)
  {
    var db := OnDisabledDomain(local, domain);
    assert db.inboxes[1].address == local + "@" + domain;
    SplitAround(local, domain, '@');
    assert local + ['@'] + domain == local + "@" + domain;
  }

  // Event i of the run ends a lookup for `name` with this result.
  predicate Ends(r: Coherence.Run, i: nat, name: string, allowed: Result<bool>)
    requires |r.states| == |r.events| + 1 && i < |r.events| && Coherence.Possible(r.states[i], r.events[i])
  {
    match allowed
    case Ok(enabled) => Coherence.Returned(r.states[i], r.events[i]) == Some(Coherence.Answer(name, enabled))
    case Err(error) =>
      r.events[i].FetchFails? && r.states[i].lookups[r.events[i].lookup].name == name && error == Failed
  }

  /** If lookups take at most `delay`, every RCPT whose lookup ends ttl + delay or more after a lasting
      disabling of the domain is rejected and leaves the session as it was. */
  lemma LastingDisablingIsFelt(ttl: int, r: Coherence.Run, delay: int, m: nat, i: nat, allowed: Result<bool>,
                               s: State, db: Db, parsed: Option<string>, fails: bool)
    requires RecipientDomain(parsed).Some?
    requires Coherence.FromStart(ttl, r) && 0 < ttl && Coherence.Prompt(r, delay)
    requires m < |r.states| && i < |r.events| && Coherence.Possible(r.states[i], r.events[i])
    requires Ends(r, i, Lower(RecipientDomain(parsed).value), allowed)
    requires forall l :: m <= l <= i ==> !Coherence.Truth(r.states[l], Lower(RecipientDomain(parsed).value))
    requires r.states[m].now + ttl + delay <= r.states[i].now && m <= i
    ensures Recipient(s, db, parsed, allowed, fails) == (s, if allowed.Ok? then Rejected(550) else Rejected(451))
  {
    if allowed.Ok? {
      Coherence.ChangesTakeEffect(ttl, r, delay, m, i, Lower(RecipientDomain(parsed).value), allowed.value);
    }
  }
}
