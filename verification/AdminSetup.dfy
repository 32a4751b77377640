/** The first-run admin password (HandleAdminSetup in internal/web/admin.go): the check that none
    is set and the write are two steps, and setups of several visitors can interleave. */
module AdminSetup {
  import opened Outcome
  import opened Schema
  import opened Repository

  const PASSWORD_HASH_KEY := "admin_password_hash"
  const MIN_PASSWORD_LENGTH := 12

  // The submitted form and what bcrypt makes of the password (None if it refuses it).
  datatype Form = Form(password: string, confirm: string, hash: Option<string>)

  predicate Acceptable(form: Form) {
    MIN_PASSWORD_LENGTH <= |form.password| && form.password == form.confirm && form.hash.Some?
  }

  // adminPasswordHash: "" when none has been set.
  function StoredHash(db: Db): string {
    match FindSetting(db, PASSWORD_HASH_KEY) case Ok(hash) => hash case Err(_) => ""
  }

  datatype Reply = ToLogin | FormError | ServerError | LoggedIn

  // What happens to a form once the check has passed. `fails` says that the write fails.
  function Claim(db: Db, form: Form, fails: bool): (Db, Reply) {
    if |form.password| < MIN_PASSWORD_LENGTH || form.password != form.confirm then (db, FormError)
    else if form.hash.None? || fails then (db, ServerError)
    else (PutSetting(db, PASSWORD_HASH_KEY, form.hash.value), LoggedIn)
  }

  // The whole handler without interruption.
  function Setup(db: Db, form: Form, fails: bool): (Db, Reply) {
    if StoredHash(db) != "" then (db, ToLogin) else Claim(db, form, fails)
  }

  method HandleAdminSetup(repo: SQLite, form: Form, fails: bool) returns (reply: Reply)
    requires repo.Valid()
    modifies repo
    ensures repo.Valid()
    ensures (repo.db, reply) == Setup(old(repo.db), form, fails)
    ensures reply == LoggedIn ==> 12 <= |form.password| && form.password == form.confirm
    ensures reply == LoggedIn ==> Some(StoredHash(repo.db)) == form.hash && StoredHash(old(repo.db)) == ""
    ensures reply != LoggedIn ==> repo.db == old(repo.db)
  {
    var existing := repo.GetSetting(PASSWORD_HASH_KEY);
    if existing.Ok? && existing.value != "" {
      return ToLogin;
    }
    if |form.password| < MIN_PASSWORD_LENGTH {
      return FormError;
    }
    if form.password != form.confirm {
      return FormError;
    }
    if form.hash.None? || fails {
      return ServerError;
    }
    repo.SetSetting(PASSWORD_HASH_KEY, form.hash.value);
    reply := LoggedIn;
  }

  /** What each reply means, and what it leaves. A visitor is logged in exactly when no password was set,
      the one submitted has at least 12 characters and is confirmed, bcrypt took it and it was written. */
  lemma SetupReplies(db: Db, form: Form, fails: bool)
    ensures StoredHash(db) == if "admin_password_hash" in db.settings then db.settings["admin_password_hash"] else ""
    ensures Setup(db, form, fails).1 == ToLogin <==> StoredHash(db) != ""
    ensures Setup(db, form, fails).1 == FormError
       <==> StoredHash(db) == "" && (|form.password| < 12 || form.password != form.confirm)
    ensures Setup(db, form, fails).1 == LoggedIn
       <==> StoredHash(db) == "" && 12 <= |form.password| && form.password == form.confirm && form.hash.Some? && !fails
    ensures Setup(db, form, fails).1 == LoggedIn ==>
              && "admin_password_hash" in Setup(db, form, fails).0.settings
              && Setup(db, form, fails).0
                 == db.(settings := db.settings["admin_password_hash" := form.hash.value])
              && Some(StoredHash(Setup(db, form, fails).0)) == form.hash
    ensures Setup(db, form, fails).1 != LoggedIn ==> Setup(db, form, fails).0 == db
  {}

  // ----- Interleaved setups -----

  // Setups that have passed the check and not finished, by request.
  datatype State = State(db: Db, pending: map<nat, Form>, next: nat)

  datatype Event =
    | Begin(form: Form)                     // the check
    | Finish(request: nat, fails: bool)     // validation, hashing and the write

  predicate Possible(s: State, e: Event) {
    e.Finish? ==> e.request in s.pending
  }

  function Next(s: State, e: Event): State
    requires Possible(s, e)
  {
    match e
    case Begin(form) =>
      if StoredHash(s.db) != "" then s else s.(pending := s.pending[s.next := form], next := s.next + 1)
    case Finish(request, fails) =>
      s.(db := Claim(s.db, s.pending[request], fails).0, pending := s.pending - {request})
  }

  ghost predicate Run(states: seq<State>, events: seq<Event>) {
    && |states| == |events| + 1
    && forall i :: 0 <= i < |events| ==> Possible(states[i], events[i]) && states[i + 1] == Next(states[i], events[i])
  }

  /** The stored hash only ever comes from a confirmed password of at least 12 characters: along
      every run it is the one from the start or that of an acceptable form begun in the run. */
  lemma {:induction false} HashComesFromAForm(states: seq<State>, events: seq<Event>, i: nat)
    requires Run(states, events) && i < |states| && states[0].pending == map[]
    ensures StoredHash(states[i].db) == StoredHash(states[0].db)
            || exists j :: 0 <= j < i && events[j].Begin? && Acceptable(events[j].form)
                           && events[j].form.hash == Some(StoredHash(states[i].db))
    ensures forall r <- states[i].pending :: exists j :: 0 <= j < i && events[j] == Begin(states[i].pending[r])
    decreases i
  {
    if i != 0 {
      HashComesFromAForm(states, events, i - 1);
      var s, e, s' := states[i - 1], events[i - 1], states[i];
      assert s' == Next(s, e);
      forall r | r in s'.pending ensures exists j :: 0 <= j < i && events[j] == Begin(s'.pending[r]) {
        if e.Begin? && r !in s.pending {
          assert events[i - 1] == Begin(s'.pending[r]);
        } else if e.Begin? && r == s.next && s' != s {
          assert events[i - 1] == Begin(s'.pending[r]);
        } else {
          assert s'.pending[r] == s.pending[r];
          var j :| 0 <= j < i - 1 && events[j] == Begin(s.pending[r]);
          assert events[j] == Begin(s'.pending[r]);
        }
      }
      if e.Finish? && StoredHash(s'.db) != StoredHash(s.db) {
        var j :| 0 <= j < i - 1 && events[j] == Begin(s.pending[e.request]);
        assert Acceptable(events[j].form) && events[j].form.hash == Some(StoredHash(s'.db));
      }
    }
  }

  // What the visitor of this event is answered, if this event answers.
  function Replied(s: State, e: Event): Option<Reply>
    requires Possible(s, e)
  {
    match e
    case Begin(form) => if StoredHash(s.db) != "" then Some(ToLogin) else None
    case Finish(request, fails) => Some(Claim(s.db, s.pending[request], fails).1)
  }

  // Only setups that found no hash are in flight.
  lemma {:induction false} PendingFoundNone(states: seq<State>, events: seq<Event>, i: nat)
    requires Run(states, events) && i < |states| && states[0].pending == map[]
    ensures forall r <- states[i].pending :: exists j ::
              0 <= j < i && events[j] == Begin(states[i].pending[r]) && StoredHash(states[j].db) == ""
    decreases i
  {
    if i != 0 {
      PendingFoundNone(states, events, i - 1);
      var s, e, s' := states[i - 1], events[i - 1], states[i];
      assert s' == Next(s, e);
      forall r | r in s'.pending
        ensures exists j :: 0 <= j < i && events[j] == Begin(s'.pending[r]) && StoredHash(states[j].db) == ""
      {
        if s'.pending != s.pending && e.Begin? && r == s.next {
          assert events[i - 1] == Begin(s'.pending[r]) && StoredHash(states[i - 1].db) == "";
        } else {
          assert s'.pending[r] == s.pending[r];
          var j :| 0 <= j < i - 1 && events[j] == Begin(s.pending[r]) && StoredHash(states[j].db) == "";
          assert events[j] == Begin(s'.pending[r]);
        }
      }
    }
  }

  /** The replies along every interleaving. A setup that finishes began when no hash was set. Its visitor is
      logged in exactly for a confirmed password of at least 12 characters that bcrypt took and that was
      written, and then its hash is the stored one; otherwise the store is as before. */
  lemma RepliesInRuns(states: seq<State>, events: seq<Event>, i: nat)
    requires Run(states, events) && i < |events| && states[0].pending == map[]
    ensures events[i].Begin? ==>
              && (Replied(states[i], events[i]) == Some(ToLogin) <==> StoredHash(states[i].db) != "")
              && states[i + 1].db == states[i].db
    ensures events[i].Finish? ==>
              var form := states[i].pending[events[i].request];
              var reply := Replied(states[i], events[i]);
              && (exists j :: 0 <= j < i && events[j] == Begin(form) && StoredHash(states[j].db) == "")
              && (reply == Some(FormError) <==> |form.password| < 12 || form.password != form.confirm)
              && (reply == Some(LoggedIn)
                  <==> 12 <= |form.password| && form.password == form.confirm && form.hash.Some? && !events[i].fails)
              && reply != None && reply != Some(ToLogin)
              && (reply == Some(LoggedIn) ==> Some(StoredHash(states[i + 1].db)) == form.hash)
              && (reply != Some(LoggedIn) ==> states[i + 1].db == states[i].db)
  {
    PendingFoundNone(states, events, i);
    assert states[i + 1] == Next(states[i], events[i]);
  }

  // A setup that has passed its check and would put in another hash.
  ghost predicate Overwriting(s: State) {
    exists r <- s.pending :: Acceptable(s.pending[r]) && s.pending[r].hash != Some(StoredHash(s.db))
  }

  // Some continuation of setup steps changes the stored hash.
  ghost predicate CanChange(s: State) {
    exists states: seq<State>, events: seq<Event> ::
      Run(states, events) && states[0] == s
      && StoredHash(states[|events|].db) != StoredHash(s.db)
  }

  lemma {:induction false} HashStays(states: seq<State>, events: seq<Event>, i: nat)
    requires Run(states, events) && i < |states| && StoredHash(states[0].db) != "" && !Overwriting(states[0])
    ensures StoredHash(states[i].db) == StoredHash(states[0].db)
    ensures forall r <- states[i].pending :: r in states[0].pending && states[i].pending[r] == states[0].pending[r]
    decreases i
  {
    if i != 0 {
      HashStays(states, events, i - 1);
      assert states[i] == Next(states[i - 1], events[i - 1]);
    }
  }

  /** Once a hash is set, it can still change exactly when some setup that passed its check
      before, with an acceptable form and another hash, is in flight. */
  lemma OverwriteIff(s: State)
    requires StoredHash(s.db) != ""
    ensures CanChange(s) <==> Overwriting(s)
  {
    if Overwriting(s) {
      var r :| r in s.pending && Acceptable(s.pending[r]) && s.pending[r].hash != Some(StoredHash(s.db));
      var states, events := [s, Next(s, Finish(r, false))], [Finish(r, false)];
      assert Run(states, events) && states[0] == s;
      assert StoredHash(states[|events|].db) != StoredHash(s.db);
    } else {
      forall states: seq<State>, events: seq<Event> | Run(states, events) && states[0] == s
        ensures StoredHash(states[|events|].db) == StoredHash(s.db)
      {
        HashStays(states, events, |events|);
      }
    }
  }

  // Two visitors pass the check before either has finished.
  function TwoSetups(f: Form, g: Form): seq<State> {
    var s := State(EMPTY, map[], 0);
    var claimed := PutSetting(EMPTY, PASSWORD_HASH_KEY, if f.hash.Some? then f.hash.value else "");
    [s, s.(pending := map[0 := f], next := 1), s.(pending := map[0 := f, 1 := g], next := 2),
     State(claimed, map[1 := g], 2),
     State(PutSetting(claimed, PASSWORD_HASH_KEY, if g.hash.Some? then g.hash.value else ""), map[], 2)]
  }

  /** A second concurrent setup is not turned away: from an empty store, two acceptable setups that
      both pass the check both succeed, and the later one's hash stays. */
  lemma SecondSetupOverwrites(f: Form, g: Form)
    requires Acceptable(f) && Acceptable(g) && f.hash != g.hash && f.hash.value != ""
    ensures Run(TwoSetups(f, g), [Begin(f), Begin(g), Finish(0, false), Finish(1, false)])
    ensures TwoSetups(f, g)[0] == State(EMPTY, map[], 0)
    ensures Some(StoredHash(TwoSetups(f, g)[3].db)) == f.hash && Overwriting(TwoSetups(f, g)[3])
    ensures Some(StoredHash(TwoSetups(f, g)[4].db)) == g.hash
  {
    var s := TwoSetups(f, g);
    assert s[1] == Next(s[0], Begin(f));
    assert s[2] == Next(s[1], Begin(g));
    assert s[3] == Next(s[2], Finish(0, false));
    assert s[4] == Next(s[3], Finish(1, false));
    assert 1 in s[3].pending && s[3].pending[1] == g;
  }

  // Setups one after the other, each uninterrupted; the flag says that its write fails.
  function AtomicRun(db: Db, forms: seq<(Form, bool)>): Db
    decreases |forms|
  {
    if forms == [] then db else AtomicRun(Setup(db, forms[0].0, forms[0].1).0, forms[1..])
  }

  predicate Succeeds(form: (Form, bool)) {
    Acceptable(form.0) && form.0.hash != Some("") && !form.1
  }

  lemma {:induction false} SetupIsClosed(db: Db, forms: seq<(Form, bool)>)
    requires StoredHash(db) != ""
    ensures AtomicRun(db, forms) == db
    decreases |forms|
  {
    if forms != [] {
      SetupIsClosed(db, forms[1..]);
    }
  }

  /** With uninterrupted handlers the first setup that succeeds wins for good. */
  lemma {:induction false} FirstSetupWins(db: Db, forms: seq<(Form, bool)>, i: nat)
    requires StoredHash(db) == "" && forall k :: 0 <= k < |forms| ==> forms[k].0.hash != Some("")
    requires i < |forms| && Succeeds(forms[i]) && forall j :: 0 <= j < i ==> !Succeeds(forms[j])
    ensures Some(StoredHash(AtomicRun(db, forms))) == forms[i].0.hash
    decreases |forms|
  {
    var next := Setup(db, forms[0].0, forms[0].1).0;
    if i == 0 {
      SetupIsClosed(next, forms[1..]);
    } else {
      assert !Succeeds(forms[0]);
      FirstSetupWins(next, forms[1..], i - 1);
    }
  }
}
