/** The in-process cache of enabled domains (internal/smtp/domaincache.go) and the lookup that
    goes through it (internal/smtp/backend.go). */
module DomainCache {
  import opened Outcome
  import opened Text
  import opened Clock
  import opened Schema
  import opened Repository

  const DOMAIN_CACHE_TTL := 30 * SECOND

  datatype Entry = Entry(enabled: bool, expiresAt: int)
  type Entries = map<string, Entry>

  function Cached(entries: Entries, name: string, now: int): Option<bool> {
    if name in entries && now < entries[name].expiresAt then Some(entries[name].enabled) else None
  }

  function Remember(entries: Entries, ttl: int, name: string, enabled: bool, now: int): Entries {
    entries[name := Entry(enabled, now + ttl)]
  }

  // One uninterrupted lookup: the cache is read at `asked` and, after a miss, written at `stored`.
  // `fails` says that the database lookup, if there is one, fails.
  function Allowed(entries: Entries, ttl: int, db: Db, name: string, asked: int, stored: int, fails: bool)
    : (Entries, Result<bool>)
  {
    match Cached(entries, Lower(name), asked)
    case Some(enabled) => (entries, Ok(enabled))
    case None =>
      if fails then (entries, Err(Failed)) else
      var enabled := DomainEnabled(db, Lower(name));
      (Remember(entries, ttl, Lower(name), enabled, stored), Ok(enabled))
  }

  /** A stored answer is used for exactly ttl from its storing, and no other name's. */
  lemma StoredAnswerIsUsed(entries: Entries, ttl: int, name: string, enabled: bool, stored: int, asked: int)
    ensures Cached(Remember(entries, ttl, name, enabled, stored), name, asked)
         == if asked < stored + ttl then Some(enabled) else None
    ensures forall other :: other != name ==>
              Cached(Remember(entries, ttl, name, enabled, stored), other, asked) == Cached(entries, other, asked)
  {}

  /** Two lookups of one domain, in whatever case: the second repeats the answer of the first while its time
      to live lasts, whatever the table says by then and even if it cannot be asked; afterwards it asks. */
  lemma SecondLookup(entries: Entries, ttl: int, db: Db, later: Db, name: string, again: string, asked: int,
                     stored: int, asked': int, stored': int, fails': bool)
    requires Cached(entries, Lower(name), asked) == None && SameButCase(name, again)
    ensures Allowed(entries, ttl, db, name, asked, stored, true) == (entries, Err(Failed))
    ensures var (entries', first) := Allowed(entries, ttl, db, name, asked, stored, false);
            && first == Ok(DomainEnabled(db, Lower(name)))
            && Allowed(entries', ttl, later, again, asked', stored', fails').1
               == if asked' < stored + ttl then first
                  else if fails' then Err(Failed) else Ok(DomainEnabled(later, Lower(name)))
  {
    FoldIff(name, again);
  }

  class Cache {
    const ttl: int
    var entries: Entries

    constructor (ttl: int)
      ensures this.ttl == ttl && entries == map[]
    {
      this.ttl := ttl;
      entries := map[];
    }

    // get: `now` is read under the lock.
    method Get(name: string, now: int) returns (enabled: bool, ok: bool)
      ensures ok <==> Cached(entries, name, now).Some?
      ensures ok ==> enabled == Cached(entries, name, now).value
      ensures !ok ==> !enabled
    {
      if name !in entries || now >= entries[name].expiresAt {
        return false, false;
      }
      return entries[name].enabled, true;
    }

    method Set(name: string, enabled: bool, now: int)
      modifies this
      ensures entries == Remember(old(entries), ttl, name, enabled, now)
    {
      entries := entries[name := Entry(enabled, now + ttl)];
    }
  }

  class Backend {
    const repo: SQLite
    const domains: Cache

    constructor (repo: SQLite)
      ensures this.repo == repo && fresh(domains)
      ensures domains.ttl == 30_000_000_000 && domains.entries == map[]
    {
      this.repo := repo;
      domains := new Cache(DOMAIN_CACHE_TTL);
    }

    method DomainAllowed(name: string, asked: int, stored: int, fails: bool) returns (result: Result<bool>)
      requires repo.Valid()
      modifies domains
      ensures (domains.entries, result)
           == Allowed(old(domains.entries), domains.ttl, repo.db, name, asked, stored, fails)
    {
      var lower := Lower(name);
      var enabled, ok := domains.Get(lower, asked);
      if ok {
        return Ok(enabled);
      }
      result := repo.IsDomainEnabled(lower, fails);
      if result.Err? {
        return Err(Failed);
      }
      domains.Set(lower, result.value, stored);
    }
  }
}
