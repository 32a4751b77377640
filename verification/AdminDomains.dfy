/** Adding and toggling domains (HandleAdminAddDomain and HandleAdminToggleDomain in
    internal/web/admin.go). */
module AdminDomains {
  import opened Outcome
  import opened Text
  import opened Clock
  import opened Schema
  import opened StoreRuns
  import opened Repository
  import opened Registration

  datatype Reply = Changed | Invalid | Exists | Missing | ServerError

  method HandleAdminAddDomain(repo: SQLite, raw: string, now: int) returns (reply: Reply)
    requires repo.Valid() && NormalDomains(repo.db)
    modifies repo
    ensures repo.Valid() && NormalDomains(repo.db)
    ensures reply == Changed || repo.db == old(repo.db)
    ensures reply == Invalid <==> ValidateDomain(raw).None?
    ensures reply == Exists <==> ValidateDomain(raw).Some? && DomainTaken(old(repo.db), ValidateDomain(raw).value)
    ensures reply == Changed ==>
              && DomainEnabled(repo.db, ValidateDomain(raw).value)
              && old(repo.db).nextDomain !in old(repo.db).domains
              && repo.db == old(repo.db).(
                   domains := old(repo.db).domains[old(repo.db).nextDomain :=
                     Domain(old(repo.db).nextDomain, ValidateDomain(raw).value, true, Unix(now))],
                   nextDomain := old(repo.db).nextDomain + 1)
  {
    var name := ValidateDomain(raw);
    if name.None? {
      return Invalid;
    }
    AddedDomainsAreNormal(repo.db, raw, now);
    DomainIsNormal(raw);
    var created := repo.CreateDomain(name.value, now);
    if created.Err? {
      return Exists;
    }
    assert repo.db.domains[created.value.id] == created.value;
    reply := Changed;
  }

  // Read the switch, then write its opposite. `between` is what other requests do in between.
  ghost function Toggle(db: Db, name: string, between: seq<Op>): Db {
    match FindDomain(db, name)
    case Err(_) => db
    case Ok(domain) => SetEnabled(Exec(db, between), domain.name, !domain.enabled).0
  }

  method HandleAdminToggleDomain(repo: SQLite, name: string) returns (reply: Reply)
    requires repo.Valid()
    modifies repo
    ensures repo.Valid() && repo.db == Toggle(old(repo.db), name, [])
    ensures reply == Missing <==> !DomainTaken(old(repo.db), Trim(name))
    ensures reply == ServerError <==>
              DomainTaken(old(repo.db), Trim(name))
              && !DomainTaken(old(repo.db), Trim(FindDomain(old(repo.db), name).value.name))
    ensures NormalDomains(old(repo.db)) && DomainTaken(old(repo.db), Trim(name)) ==> reply == Changed
    ensures reply != Changed ==> repo.db == old(repo.db)
  {
    var domain := repo.GetDomain(name);
    if domain.Err? {
      return Missing;
    }
    if NormalDomains(repo.db) {
      DomainIsNormal(domain.value.name);
    }
    var result := repo.SetDomainEnabled(domain.value.name, !domain.value.enabled);
    reply := if result.Ok? then Changed else ServerError;
  }

  lemma FoundDomain(db: Db, name: string, id: int)
    requires Consistent(db) && id in db.domains && EqualFold(db.domains[id].name, Trim(name))
    ensures FindDomain(db, name) == Ok(db.domains[id])
  {}

  /** A toggle flips the switch it read and leaves every other domain alone, whatever happens
      between its read and its write: the domain ends up opposite to what was read, also when
      another toggle got in first (whose effect is then lost). */
  lemma {:induction false} ToggleFlipsWhatItRead(db: Db, id: int, between: seq<Op>)
    requires Consistent(db) && NormalDomains(db) && id in db.domains
    ensures id in Exec(db, between).domains
    ensures id in Toggle(db, db.domains[id].name, between).domains
    ensures Toggle(db, db.domains[id].name, between).domains[id]
         == Exec(db, between).domains[id].(enabled := !db.domains[id].enabled)
    ensures forall j <- Exec(db, between).domains :: j != id ==>
              j in Toggle(db, db.domains[id].name, between).domains
              && Toggle(db, db.domains[id].name, between).domains[j] == Exec(db, between).domains[j]
  {
    var name := db.domains[id].name;
    DomainIsNormal(name);
    FoundDomain(db, name, id);
    RunIsSound(db, between);
    var later := Exec(db, between);
    assert later.domains[id].name == name;
  }
}
