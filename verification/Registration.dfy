/** Creating a mailbox (internal/web/auth_handlers.go, middleware.go, routes.go and
    internal/domainutil) and finding it again from SMTP. */
module Registration {
  import opened Outcome
  import opened Text
  import opened Clock
  import opened Schema
  import opened StoreRuns
  import opened Ordering
  import opened Repository
  import opened RateLimit
  import opened Smtp

  // ----- Names -----

  const LOCAL_PART_MIN := 3
  const LOCAL_PART_MAX := 64

  predicate LetterOrDigit(c: char) { 'a' <= c <= 'z' || '0' <= c <= '9' }

  function LocalPart(raw: string): Option<string> {
    var local := Lower(Trim(raw));
    if LOCAL_PART_MIN <= |local| <= LOCAL_PART_MAX && forall c <- local :: LetterOrDigit(c) then Some(local) else None
  }

  method ValidateLocalPart(raw: string) returns (result: Option<string>)
    ensures result == LocalPart(raw)
  {
    var local := Lower(Trim(raw));
    if local == "" {
      return None;
    }
    if |local| < LOCAL_PART_MIN || |local| > LOCAL_PART_MAX {
      return None;
    }
    for i := 0 to |local|
      invariant forall j :: 0 <= j < i ==> LetterOrDigit(local[j])
    {
      if !('a' <= local[i] <= 'z') && !('0' <= local[i] <= '9') {
        assert local[i] in local;
        return None;
      }
    }
    result := Some(local);
  }

  predicate HasDoubleDot(s: string) {
    exists i :: 0 <= i < |s| - 1 && s[i] == '.' && s[i + 1] == '.'
  }

  // domainutil.Validate
  function ValidateDomain(raw: string): Option<string> {
    var domain := Lower(Trim(raw));
    if domain == "" then None
    else if '@' in domain then None
    else if exists c <- domain :: IsSpace(c) then None
    else if domain[0] == '.' || domain[|domain| - 1] == '.' || HasDoubleDot(domain) then None
    else Some(domain)
  }

  // ----- Choosing the domain -----

  predicate OldestFirst(a: Domain, b: Domain) {
    a.createdAt < b.createdAt || (a.createdAt == b.createdAt && a.id < b.id)
  }

  function EnabledDomains(db: Db): set<Domain> {
    set i | i in db.domains && db.domains[i].enabled :: db.domains[i]
  }

  lemma DomainsAreOrdered(db: Db)
    requires Keyed(db)
    ensures Orders(OldestFirst, EnabledDomains(db))
  {}

  // The oldest enabled domain, or the bootstrap seed.
  function DefaultDomain(db: Db, seed: string): string
    requires Keyed(db)
  {
    DomainsAreOrdered(db);
    if EnabledDomains(db) == {} then seed else First(OldestFirst, EnabledDomains(db)).name
  }

  function ResolveDomain(db: Db, requested: string, seed: string): string
    requires Keyed(db)
  {
    var requested := Lower(Trim(requested));
    if requested != "" && DomainEnabled(db, requested) then requested else DefaultDomain(db, seed)
  }

  function Address(localPart: string, domain: string): string { localPart + "@" + domain }

  // ----- Creating the inbox -----

  datatype Created = Created(inbox: Inbox) | RateLimited(retryAfter: int) | NoDomain | Refused(error: Error)

  function Provision(db: Db, requested: string, seed: string, localPart: string, token: string, hash: string,
                     now: int): (Db, Created)
    requires Keyed(db)
  {
    var domain := ResolveDomain(db, requested, seed);
    if domain == "" then (db, NoDomain) else
    var (after, result) := InsertInbox(db, Address(localPart, domain), localPart, token, hash, NEVER_EXPIRES, now);
    (after, match result case Ok(inbox) => Created(inbox) case Err(error) => Refused(error))
  }

  datatype Attempt = Attempt(client: string, reading: Instant, requested: string, localPart: string, token: string,
                             hash: string, now: int)

  // One attempt to create an inbox, behind the limiter.
  function Register(cfg: Config, entries: Entries, db: Db, seed: string, a: Attempt): (Entries, Db, Created)
    requires Keyed(db)
  {
    var (entries', decision) := Decide(cfg, entries, a.client, a.reading);
    if !decision.allowed then (entries', db, RateLimited(decision.retryAfter)) else
    var (db', created) := Provision(db, a.requested, seed, a.localPart, a.token, a.hash, a.now);
    (entries', db', created)
  }

  class Registrar {
    const repo: SQLite
    const limiter: FixedWindowLimiter?
    const seed: string

    constructor (repo: SQLite, limiter: FixedWindowLimiter?, seed: string)
      ensures this.repo == repo && this.limiter == limiter && this.seed == seed
    {
      this.repo := repo;
      this.limiter := limiter;
      this.seed := seed;
    }

    // createInbox; `reading` is the limiter's clock.
    method CreateInbox(client: string, reading: Instant, requested: string, localPart: string, token: string,
                       hash: string, now: int) returns (result: Created)
      requires repo.Valid()
      modifies repo, limiter
      ensures repo.Valid()
      ensures limiter != null ==>
                (limiter.entries, repo.db, result)
                == Register(limiter.cfg, old(limiter.entries), old(repo.db), seed,
                            Attempt(client, reading, requested, localPart, token, hash, now))
      ensures limiter == null ==>
                (repo.db, result) == Provision(old(repo.db), requested, seed, localPart, token, hash, now)
    {
      if limiter != null {
        var decision := limiter.Allow(client, reading);
        if !decision.allowed {
          return RateLimited(decision.retryAfter);
        }
      }
      var domain := ResolveDomain(repo.db, requested, seed);
      if domain == "" {
        return NoDomain;
      }
      var inserted := repo.CreateInbox(Address(localPart, domain), localPart, token, hash, NEVER_EXPIRES, now);
      result := match inserted case Ok(inbox) => Created(inbox) case Err(error) => Refused(error);
    }
  }

  // ----- What accepted names look like -----

  lemma LowerFixed(s: string)
    requires forall c <- s :: LowerChar(c) == c
    ensures Lower(s) == s
  {}

  lemma LowerIsFixed(s: string)
    ensures forall c <- Lower(s) :: LowerChar(c) == c
  {}

  /** A name is accepted exactly if, trimmed, it is 3 to 64 ASCII letters and digits; it is taken over with
      its capitals made small. */
  lemma LocalPartIff(raw: string)
    ensures LocalPart(raw).Some?
       <==> 3 <= |Trim(raw)| <= 64
            && forall i :: 0 <= i < |Trim(raw)| ==>
                 'a' <= Trim(raw)[i] <= 'z' || 'A' <= Trim(raw)[i] <= 'Z' || '0' <= Trim(raw)[i] <= '9'
    ensures LocalPart(raw).Some? ==>
              && SameButCase(Trim(raw), LocalPart(raw).value)
              && forall i :: 0 <= i < |LocalPart(raw).value| ==> !('A' <= LocalPart(raw).value[i] <= 'Z')
  {
    var trimmed, local := Trim(raw), Lower(Trim(raw));
    LowerMeans(trimmed);
    if forall c <- local :: LetterOrDigit(c) {
      assert forall i :: 0 <= i < |local| ==> local[i] in local;
    }
  }

  /** An accepted name is normal: 3 to 64 lower-case letters and digits, and validating it again
      gives it back. */
  lemma LocalPartIsNormal(raw: string)
    requires LocalPart(raw).Some?
    ensures LocalPart(LocalPart(raw).value) == LocalPart(raw)
    ensures '@' !in LocalPart(raw).value && Lower(LocalPart(raw).value) == LocalPart(raw).value
  {
    var local := LocalPart(raw).value;
    LowerIsFixed(Trim(raw));
    LowerFixed(local);
    assert local[0] in local && local[|local| - 1] in local;
    TrimIdentity(local);
  }

  predicate NoneEmpty(labels: seq<string>) {
    forall i :: 0 <= i < |labels| ==> labels[i] != ""
  }

  predicate WellDotted(s: string) {
    s != "" && s[0] != '.' && s[|s| - 1] != '.' && !HasDoubleDot(s)
  }

  lemma DotsInTail(s: string, i: nat)
    requires i < |s| - 1 && s[i] == '.' && '.' !in s[..i]
    ensures HasDoubleDot(s) <==> s[i + 1] == '.' || HasDoubleDot(s[i + 1..])
  {
    var tail := s[i + 1..];
    if HasDoubleDot(tail) {
      var k :| 0 <= k < |tail| - 1 && tail[k] == '.' && tail[k + 1] == '.';
      assert s[i + 1 + k] == '.' && s[i + 1 + k + 1] == '.';
    }
    if HasDoubleDot(s) && s[i + 1] != '.' {
      var k :| 0 <= k < |s| - 1 && s[k] == '.' && s[k + 1] == '.';
      assert forall j :: 0 <= j < i ==> s[j] == s[..i][j] && s[j] != '.';
      assert tail[k - i - 1] == '.' && tail[k - i] == '.';
    }
  }

  lemma WellDottedTail(s: string, i: nat)
    requires i < |s| && s[i] == '.' && '.' !in s[..i]
    ensures WellDotted(s) <==> i != 0 && WellDotted(s[i + 1..])
  {
    var tail := s[i + 1..];
    if i != 0 {
      assert s[0] == s[..i][0] && s[0] != '.';
    }
    if tail == "" {
      assert s[|s| - 1] == '.';
    } else {
      DotsInTail(s, i);
      assert tail[0] == s[i + 1] && tail[|tail| - 1] == s[|s| - 1];
    }
  }

  lemma NoDots(s: string)
    requires '.' !in s
    ensures WellDotted(s) <==> s != ""
  {
    assert forall i :: 0 <= i < |s| ==> s[i] in s && s[i] != '.';
  }

  lemma NoneEmptyCons(head: string, rest: seq<string>)
    ensures NoneEmpty([head] + rest) <==> head != "" && NoneEmpty(rest)
  {
    var labels := [head] + rest;
    assert labels[0] == head && forall i :: 0 <= i < |rest| ==> labels[i + 1] == rest[i];
  }

  // The dots of a string are well placed exactly when no label between them is empty.
  lemma {:induction false} NoEmptyLabelIff(s: string)
    ensures NoneEmpty(Split(s, '.')) <==> WellDotted(s)
    decreases |s|
  {
    if '.' in s {
      var i := IndexOf(s, '.');
      NoEmptyLabelIff(s[i + 1..]);
      NoneEmptyCons(s[..i], Split(s[i + 1..], '.'));
      WellDottedTail(s, i);
    } else {
      NoneEmptyCons(s, []);
      assert Split(s, '.') == [s] + [];
      NoDots(s);
    }
  }

  /** A domain is accepted exactly when, trimmed and in lower case, it has no '@', no white
      space and no empty dot-separated label. */
  lemma DomainAcceptedIff(raw: string)
    ensures ValidateDomain(raw).Some?
       <==> '@' !in Lower(Trim(raw)) && (forall c <- Lower(Trim(raw)) :: !IsSpace(c))
            && NoneEmpty(Split(Lower(Trim(raw)), '.'))
  {
    NoEmptyLabelIff(Lower(Trim(raw)));
  }

  /** An accepted domain is normal: validating it again gives it back. */
  lemma DomainIsNormal(raw: string)
    requires ValidateDomain(raw).Some?
    ensures ValidateDomain(ValidateDomain(raw).value) == ValidateDomain(raw)
    ensures '@' !in ValidateDomain(raw).value && Lower(ValidateDomain(raw).value) == ValidateDomain(raw).value
    ensures Trim(ValidateDomain(raw).value) == ValidateDomain(raw).value
  {
    var domain := ValidateDomain(raw).value;
    LowerIsFixed(Trim(raw));
    LowerFixed(domain);
    assert domain[0] in domain && domain[|domain| - 1] in domain;
    TrimIdentity(domain);
  }

  // ----- The domain an inbox lands on -----

  /** Every domain name in the table went through domainutil.Validate. */
  ghost predicate NormalDomains(db: Db) {
    forall i <- db.domains :: ValidateDomain(db.domains[i].name) == Some(db.domains[i].name)
  }

  /** HandleAdminAddDomain keeps the table normal. */
  lemma AddedDomainsAreNormal(db: Db, raw: string, now: int)
    requires NormalDomains(db) && ValidateDomain(raw).Some?
    ensures NormalDomains(InsertDomain(db, ValidateDomain(raw).value, now).0)
  {
    DomainIsNormal(raw);
  }

  /** An inbox lands on an enabled domain exactly when some domain is enabled. Otherwise the
      bootstrap seed is used, whatever the table says about it. */
  lemma ResolvedEnabledIff(db: Db, requested: string, seed: string)
    requires Keyed(db) && NormalDomains(db)
    ensures DomainEnabled(db, ResolveDomain(db, requested, seed)) <==> exists i <- db.domains :: db.domains[i].enabled
    ensures (forall i <- db.domains :: !db.domains[i].enabled) ==> ResolveDomain(db, requested, seed) == seed
  {
    DomainsAreOrdered(db);
    if i :| i in db.domains && db.domains[i].enabled {
      assert db.domains[i] in EnabledDomains(db);
      var first := First(OldestFirst, EnabledDomains(db));
      var j :| j in db.domains && db.domains[j].enabled && db.domains[j] == first;
      DomainIsNormal(first.name);
      assert DomainEnabled(db, first.name);
    }
  }

  /** The requested domain is the one used exactly if it is enabled, in whatever case and with whatever
      space around it was asked for; otherwise it is the enabled domain that was added first, or the seed
      if there is none. */
  lemma ResolvedDomain(db: Db, requested: string, seed: string)
    requires Keyed(db)
    ensures SameButCase(Trim(requested), Lower(Trim(requested)))
    ensures var asked := Lower(Trim(requested));
            var resolved := ResolveDomain(db, requested, seed);
            if asked != "" && exists i <- db.domains :: db.domains[i].enabled && SameButCase(db.domains[i].name, asked)
            then resolved == asked
            else if forall i <- db.domains :: !db.domains[i].enabled then resolved == seed
            else exists i <- db.domains :: db.domains[i].enabled && db.domains[i].name == resolved
                   && forall j <- db.domains :: db.domains[j].enabled ==>
                        db.domains[i].createdAt < db.domains[j].createdAt
                        || (db.domains[i].createdAt == db.domains[j].createdAt && i <= j)
  {
    var asked := Lower(Trim(requested));
    LowerMeans(Trim(requested));
    LowerTrimmed(requested);
    NamesByCase(db, asked);
    DefaultIsOldest(db, seed);
  }

  lemma DefaultIsOldest(db: Db, seed: string)
    requires Keyed(db)
    ensures if forall i <- db.domains :: !db.domains[i].enabled then DefaultDomain(db, seed) == seed
            else exists i <- db.domains :: db.domains[i].enabled && db.domains[i].name == DefaultDomain(db, seed)
                   && forall j <- db.domains :: db.domains[j].enabled ==>
                        db.domains[i].createdAt < db.domains[j].createdAt
                        || (db.domains[i].createdAt == db.domains[j].createdAt && i <= j)
  {
    DomainsAreOrdered(db);
    if i :| i in db.domains && db.domains[i].enabled {
      assert db.domains[i] in EnabledDomains(db);
      var first := First(OldestFirst, EnabledDomains(db));
      var k :| k in db.domains && db.domains[k].enabled && db.domains[k] == first;
      forall j | j in db.domains && db.domains[j].enabled
        ensures db.domains[k].createdAt < db.domains[j].createdAt
                || (db.domains[k].createdAt == db.domains[j].createdAt && k <= j)
      {
        assert db.domains[j] in EnabledDomains(db);
      }
    }
  }

  /** When an inbox is created and what the row holds: exactly if there is a domain and neither the address,
      in any case, nor the token is taken. It gets the next id and never expires. */
  lemma ProvisionIff(db: Db, requested: string, seed: string, localPart: string, token: string, hash: string, now: int)
    requires Keyed(db)
    ensures var domain := ResolveDomain(db, requested, seed);
            var (after, result) := Provision(db, requested, seed, localPart, token, hash, now);
            var free := Free(db, localPart + "@" + domain, token);
            && (result == NoDomain <==> domain == "")
            && (result.Created? <==> domain != "" && free)
            && (result == Refused(Conflict) <==> domain != "" && !free)
            && (!result.Created? ==> after == db)
            && (result.Created? ==>
                  && result.inbox == Inbox(db.nextInbox, localPart + "@" + domain, localPart, token, hash,
                                           Unix(now), Unix(now), 253_370_764_800)
                  && after == db.(inboxes := db.inboxes[db.nextInbox := result.inbox], nextInbox := db.nextInbox + 1))
  {
    InsertInboxIff(db, Address(localPart, ResolveDomain(db, requested, seed)), localPart, token, hash, NEVER_EXPIRES,
                   now);
  }

  lemma InsertInboxIff(db: Db, address: string, localPart: string, token: string, hash: string, expiresAt: int,
                       now: int)
    ensures InsertInbox(db, address, localPart, token, hash, expiresAt, now).1.Ok? <==> Free(db, address, token)
    ensures !Free(db, address, token) ==>
              InsertInbox(db, address, localPart, token, hash, expiresAt, now) == (db, Err(Conflict))
    ensures Free(db, address, token) ==>
              var row := Inbox(db.nextInbox, address, localPart, token, hash, Unix(now), Unix(now), Unix(expiresAt));
              InsertInbox(db, address, localPart, token, hash, expiresAt, now)
              == (db.(inboxes := db.inboxes[db.nextInbox := row], nextInbox := db.nextInbox + 1), Ok(row))
  {
    AddressesByCase(db, address);
  }

  /** No inbox has the address, in any case, or the token. */
  predicate Free(db: Db, address: string, token: string) {
    forall i <- db.inboxes :: !SameButCase(db.inboxes[i].address, address) && db.inboxes[i].token != token
  }

  // How many leap days there are up to the end of the year.
  function LeapDays(year: nat): nat { year / 4 - year / 100 + year / 400 }

  /** The expiry is the first instant of the year 9999. */
  lemma NeverExpiresIn9999()
    ensures NEVER_EXPIRES == ((9999 - 1970) * 365 + LeapDays(9998) - LeapDays(1969)) * DAY
  {}

  /** A seed that an admin has disabled is still handed out when it is the only domain. */
  lemma DisabledSeedIsUsed(seed: string)
    requires ValidateDomain(seed) == Some(seed)
    ensures var db := EMPTY.(domains := map[1 := Domain(1, seed, false, 0)], nextDomain := 2);
            Consistent(db) && ResolveDomain(db, "", seed) == seed && !DomainEnabled(db, seed)
  {}

  /** With a normal table and a normal seed the chosen domain is normal, or there is none. */
  lemma ResolvedIsNormal(db: Db, requested: string, seed: string)
    requires Keyed(db) && NormalDomains(db) && (seed == "" || ValidateDomain(seed) == Some(seed))
    ensures var domain := ResolveDomain(db, requested, seed);
            domain == "" || ValidateDomain(domain) == Some(domain)
  {
    DomainsAreOrdered(db);
    var requested' := Lower(Trim(requested));
    if requested' != "" && DomainEnabled(db, requested') {
      var i :| i in db.domains && EqualFold(db.domains[i].name, Trim(requested')) && db.domains[i].enabled;
      DomainIsNormal(db.domains[i].name);
      LowerTrimmed(requested);
      LowerIdempotent(Trim(requested));
    } else if EnabledDomains(db) != {} {
      var first := First(OldestFirst, EnabledDomains(db));
      var j :| j in db.domains && db.domains[j].enabled && db.domains[j] == first;
    }
  }

  // Lower case does not bring back space at the ends.
  lemma LowerTrimmed(s: string)
    ensures Trim(Lower(Trim(s))) == Lower(Trim(s))
  {
    TrimHasNoOuterSpace(s);
    TrimIdentity(Lower(Trim(s)));
  }

  // ----- From registration to delivery -----

  lemma LowerSlice(s: string, i: nat, j: nat)
    requires i <= j <= |s|
    ensures Lower(s[i..j]) == Lower(s)[i..j]
  {}

  // Lower case neither makes nor removes an '@'.
  lemma LowerKeepsAt(s: string)
    requires '@' !in Lower(s)
    ensures '@' !in s
  {
    forall i | 0 <= i < |s| ensures s[i] != '@' {
      assert Lower(s)[i] in Lower(s);
    }
  }

  // The same address in other letter case splits at the same place.
  lemma CaseVariantSplits(local: string, domain: string, rcpt: string)
    requires '@' !in local && '@' !in domain && domain != ""
    requires Lower(rcpt) == Address(local, domain)
    ensures RecipientDomain(Some(rcpt)).Some? && Lower(RecipientDomain(Some(rcpt)).value) == domain
  {
    var n := |local|;
    var a, b := rcpt[..n], rcpt[n + 1..];
    LowerSlice(rcpt, 0, n);
    LowerSlice(rcpt, n + 1, |rcpt|);
    assert Lower(a) == local && Lower(b) == domain;
    assert rcpt[n] == '@' by {
      assert Lower(rcpt)[n] == '@';
    }
    LowerKeepsAt(a);
    LowerKeepsAt(b);
    assert rcpt == a + ['@'] + b;
    SplitAround(a, b, '@');
  }

  // No cleanup in the run happens in the year 9999 or later.
  ghost predicate BeforeNever(ops: seq<Op>) {
    forall op <- ops :: op.DeleteExpiredInboxes? ==> Unix(op.now) < Unix(NEVER_EXPIRES)
  }

  /** A cleanup removes a registered inbox exactly from the year 9999 on. */
  lemma CleanupReachesIff(db: Db, inboxId: int, now: int)
    requires inboxId in db.inboxes && db.inboxes[inboxId].expiresAt == Unix(NEVER_EXPIRES)
    ensures inboxId !in RemoveExpiredInboxes(db, now).inboxes <==> NEVER_EXPIRES <= now
  {
    assert NEVER_EXPIRES == Unix(NEVER_EXPIRES) * SECOND;
    if NEVER_EXPIRES <= now { UnixMonotone(NEVER_EXPIRES, now); }
  }

  lemma StepKeepsAccount(db: Db, op: Op, inboxId: int)
    requires inboxId in db.inboxes && db.inboxes[inboxId].expiresAt == Unix(NEVER_EXPIRES) && inboxId < db.nextInbox
    requires op.DeleteExpiredInboxes? ==> Unix(op.now) < Unix(NEVER_EXPIRES)
    ensures inboxId in Apply(db, op).inboxes && Apply(db, op).inboxes[inboxId].expiresAt == Unix(NEVER_EXPIRES)
  {}

  lemma {:induction false} AccountSurvives(db: Db, ops: seq<Op>, inboxId: int)
    requires Consistent(db) && inboxId in db.inboxes && db.inboxes[inboxId].expiresAt == Unix(NEVER_EXPIRES)
    requires BeforeNever(ops)
    ensures inboxId in Exec(db, ops).inboxes
    decreases |ops|
  {
    if ops != [] {
      StepKeepsAccount(db, ops[0], inboxId);
      StepKeepsConsistent(db, ops[0]);
      AccountSurvives(Apply(db, ops[0]), ops[1..], inboxId);
    }
  }

  // An address in other letter case has the same parts.
  lemma {:induction false} VariantParts(local: string, domain: string, rcpt: string)
    requires '@' !in local && '@' !in domain && domain != "" && Lower(local) == local && Lower(domain) == domain
    requires SameButCase(rcpt, local + "@" + domain)
    ensures Split(local + "@" + domain, '@') == [local, domain]
    ensures RecipientDomain(Some(rcpt)).Some? && Lower(RecipientDomain(Some(rcpt)).value) == domain
    ensures EqualFold(local + "@" + domain, rcpt)
  {
    FoldIff(rcpt, local + "@" + domain);
    SplitAround(local, domain, '@');
    assert local + ['@'] + domain == local + "@" + domain;
    LowerConcat(local + "@", domain);
    LowerConcat(local, "@");
    assert Lower("@") == "@";
    CaseVariantSplits(local, domain, rcpt);
  }

  lemma {:induction false} FoundLater(db: Db, ops: seq<Op>, inbox: Inbox, rcpt: string)
    requires Consistent(db) && inbox.id in db.inboxes && db.inboxes[inbox.id] == inbox
    requires inbox.expiresAt == Unix(NEVER_EXPIRES) && BeforeNever(ops) && EqualFold(inbox.address, rcpt)
    ensures FindInboxByAddress(Exec(db, ops), rcpt).Ok?
    ensures SameInbox(inbox, FindInboxByAddress(Exec(db, ops), rcpt).value)
  {
    AccountSurvives(db, ops, inbox.id);
    RunIsSound(db, ops);
    var later := Exec(db, ops);
    assert SameInbox(inbox, later.inboxes[inbox.id]);
    assert EqualFold(later.inboxes[inbox.id].address, rcpt);
  }

  lemma {:induction false} ReachedLater(db: Db, ops: seq<Op>, inbox: Inbox, rcpt: string, s: State)
    requires Consistent(db) && inbox.id in db.inboxes && db.inboxes[inbox.id] == inbox
    requires inbox.expiresAt == Unix(NEVER_EXPIRES) && BeforeNever(ops) && EqualFold(inbox.address, rcpt)
    requires RecipientDomain(Some(rcpt)).Some?
    ensures var (s', reply) := Recipient(s, Exec(db, ops), Some(rcpt), Ok(true), false);
            && reply.Accepted? && s'.inbox.Some? && s'.inbox.value.id == inbox.id
            && s'.inbox.value.passwordHash == inbox.passwordHash && s'.inbox.value.token == inbox.token
  {
    FoundLater(db, ops, inbox, rcpt);
  }

  /** Registration to delivery: in every state that can follow before the year 9999, RCPT to an address that
      differs from the new one in the case of letters at most, with its domain answered enabled, is accepted
      and resolves to the inbox that was created; its domain part is the domain the inbox was created on. */
  lemma {:induction false} RegisteredAddressReceives(db: Db, requested: string, seed: string, rawLocal: string,
                                                     token: string, hash: string, now: int, ops: seq<Op>, rcpt: string,
                                                     s: State)
    requires Consistent(db) && LocalPart(rawLocal).Some?
    requires ValidateDomain(ResolveDomain(db, requested, seed)) == Some(ResolveDomain(db, requested, seed))
    requires Provision(db, requested, seed, LocalPart(rawLocal).value, token, hash, now).1.Created?
    requires BeforeNever(ops)
    requires SameButCase(rcpt, LocalPart(rawLocal).value + "@" + ResolveDomain(db, requested, seed))
    ensures Split(LocalPart(rawLocal).value + "@" + ResolveDomain(db, requested, seed), '@')
         == [LocalPart(rawLocal).value, ResolveDomain(db, requested, seed)]
    ensures RecipientDomain(Some(rcpt)).Some?
              && Lower(RecipientDomain(Some(rcpt)).value) == ResolveDomain(db, requested, seed)
    ensures var (after, created) := Provision(db, requested, seed, LocalPart(rawLocal).value, token, hash, now);
            var (s', reply) := Recipient(s, Exec(after, ops), Some(rcpt), Ok(true), false);
            && reply.Accepted? && s'.inbox.Some? && s'.inbox.value.id == created.inbox.id
            && s'.inbox.value.passwordHash == hash && s'.inbox.value.token == token
  {
    var local, domain := LocalPart(rawLocal).value, ResolveDomain(db, requested, seed);
    LocalPartIsNormal(rawLocal);
    DomainIsNormal(domain);
    VariantParts(local, domain, rcpt);
    var (after, created) := Provision(db, requested, seed, local, token, hash, now);
    InsertInboxKeepsConsistent(db, Address(local, domain), local, token, hash, NEVER_EXPIRES, now);
    ReachedLater(after, ops, created.inbox, rcpt, s);
  }
}
