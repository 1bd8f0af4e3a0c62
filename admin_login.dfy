/** admin/login.php: the administrator sign-in form. A stored password is
    either a modern self-describing hash or a legacy MD5 digest; a legacy
    match is upgraded to a modern hash in place, and a successful sign-in
    records the administrator in the session. */
module AdminLogin {
  import opened PhpBuiltins
  import opened Config
  import opened Store

  const MISSING_CREDENTIALS: string := "Please enter both username and password."
  const INVALID_CREDENTIALS: string := "Invalid username or password."

  /** The POST body; a missing text field is "". */
  datatype LoginForm = LoginForm(csrfToken: Option<string>, username: string, password: string)

  /** time(), the hash `password_hash` produces for this password, and
      whether the upgrade UPDATE succeeds (its result is never read). */
  datatype LoginEnv = LoginEnv(now: int, newHash: string, updateOk: bool)

  datatype LoginOutcome =
    | AlreadyLoggedIn          // redirected to the dashboard before any check
    | LoggedIn                 // redirected to the dashboard after signing in
    | LoginFailed(message: string)

  /** What the checks decide about a request. */
  datatype Verdict = Refused(message: string) | Admitted(id: int, legacy: bool)

  /** The ids `SELECT ... FROM admin WHERE username = ?` returns. */
  function AdminsNamed(admins: map<int, Admin>, username: string): set<int> {
    set id | id in admins && admins[id].username == username
  }

  /** The dual-mode password check: `password_verify` against a modern hash,
      exact comparison with `md5(password)` against a legacy digest. */
  predicate PasswordMatches(platform: Platform, stored: StoredPassword, password: string) {
    match stored
    case Modern(hash) => platform.passwordVerify(password, hash)
    case Legacy(digest) => digest == platform.md5(password)
  }

  /** The one member of a set that the lookup found to have exactly one row. */
  ghost function Pick(s: set<int>): (x: int)
    requires |s| == 1
    ensures x in s && s == {x}
  {
    NonEmptyHasMember(s);
    var x :| x in s;
    SingletonIs(s, x);
    x
  }

  lemma NonEmptyHasMember(s: set<int>)
    requires |s| == 1
    ensures exists x :: x in s
  {
    if forall x :: x !in s {
      assert false;
    }
  }

  lemma SingletonIs(s: set<int>, a: int)
    requires |s| == 1 && a in s
    ensures s == {a}
  {
    assert |s - {a}| == 0;
    forall b | b in s ensures b == a {
      assert b !in s - {a};
    }
  }

  /** The checks in the order the handler makes them. A lookup succeeds only
      when it returns exactly one row (`num_rows === 1`). */
  ghost function Attempt(storedToken: Option<string>, admins: map<int, Admin>, platform: Platform,
                         form: LoginForm): Verdict
  {
    if !RequestTokenValid(storedToken, form.csrfToken) then Refused(CSRF_FAILED)
    else if IsEmpty(SanitizeInput(form.username)) || IsEmpty(form.password) then Refused(MISSING_CREDENTIALS)
    else
      var named := AdminsNamed(admins, SanitizeInput(form.username));
      if |named| != 1 then Refused(INVALID_CREDENTIALS)
      else
        var id := Pick(named);
        if PasswordMatches(platform, admins[id].password, form.password)
        then Admitted(id, admins[id].password.Legacy?)
        else Refused(INVALID_CREDENTIALS)
  }

  /** A request is admitted exactly when its token is valid, both fields are
      non-empty, exactly one administrator has the username, and the password
      matches that administrator's stored value; the admitted id is that
      administrator, flagged legacy exactly when the stored value is a digest. */
  lemma AttemptAdmitted(storedToken: Option<string>, admins: map<int, Admin>, platform: Platform,
                        form: LoginForm, id: int)
    ensures Attempt(storedToken, admins, platform, form).Admitted? && Attempt(storedToken, admins, platform, form).id == id
      <==>
      && RequestTokenValid(storedToken, form.csrfToken)
      && !IsEmpty(SanitizeInput(form.username)) && !IsEmpty(form.password)
      && AdminsNamed(admins, SanitizeInput(form.username)) == {id}
      && PasswordMatches(platform, admins[id].password, form.password)
    ensures Attempt(storedToken, admins, platform, form).Admitted? ==>
      var v := Attempt(storedToken, admins, platform, form);
      v.id in admins && v.legacy == admins[v.id].password.Legacy?
  {
    AdmittedOnlyIf(storedToken, admins, platform, form);
    var u := SanitizeInput(form.username);
    if && RequestTokenValid(storedToken, form.csrfToken)
       && !IsEmpty(u) && !IsEmpty(form.password)
       && AdminsNamed(admins, u) == {id}
    {
      AdmittedIf(storedToken, admins, platform, form, id);
    }
  }

  lemma AdmittedOnlyIf(storedToken: Option<string>, admins: map<int, Admin>, platform: Platform, form: LoginForm)
    ensures var v := Attempt(storedToken, admins, platform, form);
      v.Admitted? ==>
        && RequestTokenValid(storedToken, form.csrfToken)
        && !IsEmpty(SanitizeInput(form.username)) && !IsEmpty(form.password)
        && AdminsNamed(admins, SanitizeInput(form.username)) == {v.id}
        && v.id in admins
        && PasswordMatches(platform, admins[v.id].password, form.password)
        && v.legacy == admins[v.id].password.Legacy?
  {
    var v := Attempt(storedToken, admins, platform, form);
    if v.Admitted? {
      assert RequestTokenValid(storedToken, form.csrfToken);
      var u := SanitizeInput(form.username);
      assert !IsEmpty(u) && !IsEmpty(form.password);
      var named := AdminsNamed(admins, u);
      assert |named| == 1;
      var id := Pick(named);
      assert named == {id} && id in admins;
      assert v == (if PasswordMatches(platform, admins[id].password, form.password)
                   then Admitted(id, admins[id].password.Legacy?) else Refused(INVALID_CREDENTIALS));
    }
  }

  lemma AdmittedIf(storedToken: Option<string>, admins: map<int, Admin>, platform: Platform,
                   form: LoginForm, id: int)
    requires RequestTokenValid(storedToken, form.csrfToken)
    requires !IsEmpty(SanitizeInput(form.username)) && !IsEmpty(form.password)
    requires AdminsNamed(admins, SanitizeInput(form.username)) == {id}
    ensures id in admins
    ensures Attempt(storedToken, admins, platform, form)
         == if PasswordMatches(platform, admins[id].password, form.password)
            then Admitted(id, admins[id].password.Legacy?) else Refused(INVALID_CREDENTIALS)
  {
    var named := AdminsNamed(admins, SanitizeInput(form.username));
    assert id in named;
    assert |named| == 1;
    assert Pick(named) == id;
  }

  /** Once the token is valid and both fields are filled in, every refusal
      carries the same message: an unknown username and a wrong password
      cannot be told apart. */
  lemma RefusalsIndistinguishable(storedToken: Option<string>, admins: map<int, Admin>, platform: Platform,
                                  form: LoginForm)
    requires RequestTokenValid(storedToken, form.csrfToken)
    requires !IsEmpty(SanitizeInput(form.username)) && !IsEmpty(form.password)
    ensures Attempt(storedToken, admins, platform, form).Refused? ==>
      Attempt(storedToken, admins, platform, form).message == INVALID_CREDENTIALS
    ensures AdminsNamed(admins, SanitizeInput(form.username)) == {} ==>
      Attempt(storedToken, admins, platform, form) == Refused(INVALID_CREDENTIALS)
  {
  }

  /** Under the UNIQUE constraint on usernames, "exactly one row" is "some row". */
  lemma UniqueLookup(admins: map<int, Admin>, username: string, id: int)
    requires AdminsUnique(admins)
    requires id in admins && admins[id].username == username
    ensures AdminsNamed(admins, username) == {id}
  {
    forall x ensures x in AdminsNamed(admins, username) <==> x == id { }
  }

  /** The admin table after an admitted sign-in: a legacy digest is replaced
      by the fresh modern hash when the UPDATE succeeds. */
  function AfterLogin(admins: map<int, Admin>, id: int, legacy: bool, env: LoginEnv): (r: map<int, Admin>)
    requires id in admins
    ensures r.Keys == admins.Keys
    ensures forall k :: k in r ==> r[k].username == admins[k].username
    ensures forall k :: k in r && k != id ==> r[k] == admins[k]
    ensures r[id].password == (if legacy && env.updateOk then Modern(env.newHash) else admins[id].password)
  {
    if legacy && env.updateOk then admins[id := Admin(admins[id].username, Modern(env.newHash))] else admins
  }

  /** The POST handler of admin/login.php, lines 12-69, with the redirect of
      an already signed-in administrator (lines 5-8) in front. A refused
      request changes neither the session nor the admin table. An admitted
      one regenerates the session id, records the administrator's id, name
      and the time, and upgrades a legacy digest; the upgrade's outcome does
      not affect the sign-in. */
  method Login(session: Session, db: Database, platform: Platform, form: LoginForm, env: LoginEnv)
    returns (outcome: LoginOutcome)
    requires db.Valid()
    modifies session`adminId, session`adminUsername, session`loginTime, session`rotations, db`admins
    ensures db.Valid()
    ensures old(session.adminId).Some? ==>
      outcome == AlreadyLoggedIn && unchanged(session) && db.admins == old(db.admins)
    ensures var v := Attempt(old(session.csrfToken), old(db.admins), platform, form);
      old(session.adminId).None? && v.Refused? ==>
        outcome == LoginFailed(v.message) && unchanged(session) && db.admins == old(db.admins)
    ensures var v := Attempt(old(session.csrfToken), old(db.admins), platform, form);
      old(session.adminId).None? && v.Admitted? ==>
        && v.id in old(db.admins)
        && outcome == LoggedIn
        && session.adminId == Some(v.id)
        && session.adminUsername == Some(old(db.admins)[v.id].username)
        && session.loginTime == Some(env.now)
        && session.rotations == old(session.rotations) + 1
        && db.admins == AfterLogin(old(db.admins), v.id, v.legacy, env)
  {
    if session.adminId.Some? {
      return AlreadyLoggedIn;
    }
    var verdict := CheckCredentials(session.csrfToken, db.admins, platform, form);
    if verdict.Refused? {
      return LoginFailed(verdict.message);
    }
    SignIn(session, db, verdict.id, verdict.legacy, env);
    outcome := LoggedIn;
  }

  /** The effects of an admitted sign-in: upgrade a legacy digest when the
      UPDATE succeeds, regenerate the session id, and record the
      administrator's id, name and the time. */
  method SignIn(session: Session, db: Database, id: int, legacy: bool, env: LoginEnv)
    requires db.Valid() && id in db.admins
    modifies session`adminId, session`adminUsername, session`loginTime, session`rotations, db`admins
    ensures db.Valid()
    ensures session.adminId == Some(id)
    ensures session.adminUsername == Some(old(db.admins)[id].username)
    ensures session.loginTime == Some(env.now)
    ensures session.rotations == old(session.rotations) + 1
    ensures db.admins == AfterLogin(old(db.admins), id, legacy, env)
  {
    var admin := db.admins[id];
    db.admins := AfterLogin(db.admins, id, legacy, env);
    session.rotations := session.rotations + 1;   // session_regenerate_id(true)
    session.adminId := Some(id);
    session.adminUsername := Some(admin.username);
    session.loginTime := Some(env.now);
  }

  /** The decisions of the handler, up to and including the dual-mode
      password check: what it computes is exactly `Attempt`. */
  method CheckCredentials(storedToken: Option<string>, admins: map<int, Admin>, platform: Platform,
                          form: LoginForm)
    returns (verdict: Verdict)
    ensures verdict == Attempt(storedToken, admins, platform, form)
    ensures verdict.Admitted? ==> verdict.id in admins && verdict.legacy == admins[verdict.id].password.Legacy?
  {
    if !RequestTokenValid(storedToken, form.csrfToken) {
      return Refused(CSRF_FAILED);
    }
    var username := SanitizeInput(form.username);
    var password := form.password;
    if IsEmpty(username) || IsEmpty(password) {
      return Refused(MISSING_CREDENTIALS);
    }
    var named := AdminsNamed(admins, username);
    if |named| != 1 {
      return Refused(INVALID_CREDENTIALS);
    }
    NonEmptyHasMember(named);
    var id :| id in named;
    SingletonIs(named, id);
    assert Pick(named) == id;
    var admin := admins[id];
    var valid: bool;
    if admin.password.Modern? {
      valid := platform.passwordVerify(password, admin.password.hash);
    } else {
      valid := admin.password.digest == platform.md5(password);
    }
    if valid {
      verdict := Admitted(id, admin.password.Legacy?);
    } else {
      verdict := Refused(INVALID_CREDENTIALS);
    }
  }

  /** The migration path: after a legacy digest is matched and the upgrade
      UPDATE succeeds, the row holds the modern hash, and the same username
      and password sign in again through `password_verify`, as a modern
      account, whenever that hash verifies the password. */
  lemma LegacyUpgradeSignsInAgain(storedToken: Option<string>, admins: map<int, Admin>, platform: Platform,
                                  form: LoginForm, env: LoginEnv)
    requires AdminsUnique(admins)
    requires Attempt(storedToken, admins, platform, form).Admitted?
    requires Attempt(storedToken, admins, platform, form).legacy && env.updateOk
    requires platform.passwordVerify(form.password, env.newHash)
    ensures var id := Attempt(storedToken, admins, platform, form).id;
      var after := AfterLogin(admins, id, true, env);
      && after[id].password == Modern(env.newHash)
      && AdminsUnique(after)
      && Attempt(storedToken, after, platform, form) == Admitted(id, false)
  {
    var id := Attempt(storedToken, admins, platform, form).id;
    AttemptAdmitted(storedToken, admins, platform, form, id);
    var after := AfterLogin(admins, id, true, env);
    var u := SanitizeInput(form.username);
    assert AdminsNamed(after, u) == AdminsNamed(admins, u);
    AttemptAdmitted(storedToken, after, platform, form, id);
  }

  /** An administrator admitted through a modern hash keeps that hash: the
      sign-in rewrites nothing in the admin table. */
  lemma ModernHashUntouched(storedToken: Option<string>, admins: map<int, Admin>, platform: Platform,
                            form: LoginForm, env: LoginEnv)
    requires Attempt(storedToken, admins, platform, form).Admitted?
    requires !Attempt(storedToken, admins, platform, form).legacy
    ensures var v := Attempt(storedToken, admins, platform, form);
      v.id in admins && admins[v.id].password.Modern? && AfterLogin(admins, v.id, false, env) == admins
  {
    var v := Attempt(storedToken, admins, platform, form);
    AttemptAdmitted(storedToken, admins, platform, form, v.id);
  }
}
