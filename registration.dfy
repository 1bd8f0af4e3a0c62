/** register.php, the POST handler: CSRF check, a validation chain that stops
    at the first failing check, the duplicate-email lookup, the move of the
    photo under a generated name, the ID-number draw loop, and the insert,
    which removes the moved photo again when it fails. */
module Registration {
  import opened PhpBuiltins
  import opened Config
  import opened Store

  // ---------------------------------------------------------------------
  // Requests, errors and outcomes
  // ---------------------------------------------------------------------

  /** The POST body and the uploaded file; a missing text field is "". */
  datatype RegisterForm = RegisterForm(
    csrfToken: Option<string>,
    email: string,
    password: string,
    confirmPassword: string,
    firstName: string,
    lastName: string,
    dateOfBirth: string,
    jobType: string,
    photo: Option<UploadedFile>)

  /** The fields after `sanitize_input` (the two passwords are used raw). */
  datatype Fields = Fields(
    email: string,
    password: string,
    confirmPassword: string,
    firstName: string,
    lastName: string,
    dateOfBirth: string,
    jobType: string)

  function SanitizedFields(form: RegisterForm): Fields {
    Fields(SanitizeInput(form.email), form.password, form.confirmPassword,
           SanitizeInput(form.firstName), SanitizeInput(form.lastName),
           SanitizeInput(form.dateOfBirth), SanitizeInput(form.jobType))
  }

  /** A calendar year as `date('Y')` prints it. */
  type Year = y: int | 1000 <= y <= 9999 witness 2025

  /** A value of `random_int(100000, 999999)`. */
  type SixDigits = n: int | 100000 <= n <= 999999 witness 100000

  /** What the request sees of the clock, the random sources, the password
      hasher and the outcome of the two writes. */
  datatype RegisterEnv = RegisterEnv(
    now: int,                  // time()
    minAgeTimestamp: int,      // strtotime('-18 years', now)
    year: Year,                // date('Y')
    photoBytes: seq<Byte>,     // random_bytes(16)
    idDraws: seq<SixDigits>,   // successive random_int(100000, 999999)
    passwordHash: string,      // password_hash($password, PASSWORD_DEFAULT)
    moveOk: bool,              // move_uploaded_file succeeded
    insertOk: bool)            // the INSERT succeeded

  datatype RegisterError =
    | CsrfFailed
    | MissingFields
    | InvalidDateOfBirth
    | FutureDateOfBirth
    | Underage
    | InvalidEmail
    | PasswordTooShort
    | PasswordComposition
    | PasswordMismatch
    | NoPhoto
    | ImageRejected(uploadErrors: seq<UploadError>)
    | EmailExists
    | PhotoMoveFailed
    | InsertFailed

  function Implode(sep: string, parts: seq<string>): string {
    if parts == [] then ""
    else if |parts| == 1 then parts[0]
    else parts[0] + sep + Implode(sep, parts[1..])
  }

  function UploadMessages(errors: seq<UploadError>): seq<string> {
    if errors == [] then [] else [UploadErrorMessage(errors[0])] + UploadMessages(errors[1..])
  }

  /** The text the page shows for each error. */
  function ErrorMessage(e: RegisterError): string {
    match e
    case CsrfFailed => CSRF_FAILED
    case MissingFields => "All fields are required."
    case InvalidDateOfBirth => "Invalid date of birth."
    case FutureDateOfBirth => "Date of birth cannot be in the future."
    case Underage => "You must be at least 18 years old to register."
    case InvalidEmail => "Invalid email format."
    case PasswordTooShort => "Password must be at least 8 characters long."
    case PasswordComposition => "Password must contain at least one lowercase letter, one uppercase letter, and one number."
    case PasswordMismatch => "Passwords do not match."
    case NoPhoto => "Please upload a photo."
    case ImageRejected(errs) => Implode("<br>", UploadMessages(errs))
    case EmailExists => "Email already exists. Please use a different email."
    case PhotoMoveFailed => "Failed to upload photo. Please try again."
    case InsertFailed => "Registration failed. Please try again."
  }

  datatype RegisterOutcome = Registered(idNumber: string) | Rejected(error: RegisterError)

  // ---------------------------------------------------------------------
  // The validation chain
  // ---------------------------------------------------------------------

  /** The first line of a string: PCRE's `.` does not match "\n", and the
      pattern is anchored at the start, so the lookaheads only see this part. */
  function FirstLine(s: string): (r: string)
    ensures '\n' !in r
    ensures |r| <= |s| && r == s[..|r|]
    ensures |r| < |s| ==> s[|r|] == '\n'
  {
    if s == [] || s[0] == '\n' then [] else [s[0]] + FirstLine(s[1..])
  }

  /** `preg_match('/^(?=.*[a-z])(?=.*[A-Z])(?=.*\d)/', $password)`. */
  predicate ServerPasswordComposition(password: string) {
    var line := FirstLine(password);
    HasLower(line) && HasUpper(line) && HasDigit(line)
  }

  predicate AnyFieldEmpty(f: Fields) {
    IsEmpty(f.email) || IsEmpty(f.password) || IsEmpty(f.firstName) || IsEmpty(f.lastName)
    || IsEmpty(f.dateOfBirth) || IsEmpty(f.jobType)
  }

  /** One rule of the chain: whether it fails, and the error it reports. */
  datatype Check = Check(failed: bool, error: RegisterError)

  /** The rules in the order the chain tries them. `dob` is strtotime's
      reading of the date of birth, `emailValid` the filter_var verdict. */
  function RegistrationChecks(f: Fields, dob: Option<int>, now: int, minAge: int,
                              emailValid: bool, photo: Option<UploadedFile>): seq<Check>
  {
    [ Check(AnyFieldEmpty(f), MissingFields),
      Check(dob.None?, InvalidDateOfBirth),
      Check(dob.Some? && dob.value > now, FutureDateOfBirth),
      Check(dob.Some? && dob.value > minAge, Underage),
      Check(!emailValid, InvalidEmail),
      Check(|f.password| < PASSWORD_MIN_LENGTH, PasswordTooShort),
      Check(!ServerPasswordComposition(f.password), PasswordComposition),
      Check(f.password != f.confirmPassword, PasswordMismatch),
      Check(!UploadPresent(photo), NoPhoto),
      Check(ImageUploadErrors(photo) != [], ImageRejected(ImageUploadErrors(photo))) ]
  }

  /** The error of the first failing rule, if any. */
  function FirstFailure(checks: seq<Check>): Option<RegisterError> {
    if checks == [] then None
    else if checks[0].failed then Some(checks[0].error)
    else FirstFailure(checks[1..])
  }

  /** FirstFailure reports rule `k` exactly when rule `k` fails and every
      earlier rule passes; it reports nothing exactly when every rule passes. */
  lemma {:induction false} FirstFailureSpec(checks: seq<Check>)
    ensures FirstFailure(checks).None? <==> forall j :: 0 <= j < |checks| ==> !checks[j].failed
    ensures FirstFailure(checks).Some? ==>
      exists k :: 0 <= k < |checks| && checks[k].failed && checks[k].error == FirstFailure(checks).value
                  && forall j :: 0 <= j < k ==> !checks[j].failed
  {
    if checks != [] {
      FirstFailureSpec(checks[1..]);
      if !checks[0].failed {
        forall j | 0 < j < |checks| ensures checks[j] == checks[1..][j - 1] { }
        if FirstFailure(checks).Some? {
          var k :| 0 <= k < |checks[1..]| && checks[1..][k].failed
                   && checks[1..][k].error == FirstFailure(checks).value
                   && forall j :: 0 <= j < k ==> !checks[1..][j].failed;
          assert checks[k + 1] == checks[1..][k];
          assert forall j :: 0 <= j < k + 1 ==> !checks[j].failed by {
            forall j | 0 <= j < k + 1 ensures !checks[j].failed {
              if j > 0 { assert checks[j] == checks[1..][j - 1]; }
            }
          }
        }
      } else {
        assert checks[0].failed;
      }
    }
  }

  /** If rule `k` fails and all rules before it pass, rule `k`'s error is reported. */
  lemma {:induction false} FirstFailureAt(checks: seq<Check>, k: nat)
    requires k < |checks| && checks[k].failed
    requires forall j :: 0 <= j < k ==> !checks[j].failed
    ensures FirstFailure(checks) == Some(checks[k].error)
  {
    if k > 0 {
      assert checks[1..][k - 1] == checks[k];
      FirstFailureAt(checks[1..], k - 1);
    }
  }

  /** The chain of `elseif` branches of register.php, with the image check
      delegated to `validate_image_upload`; it reports the first failing rule. */
  method ValidateRegistration(f: Fields, dob: Option<int>, now: int, minAge: int,
                              emailValid: bool, photo: Option<UploadedFile>)
    returns (error: Option<RegisterError>)
    ensures error == FirstFailure(RegistrationChecks(f, dob, now, minAge, emailValid, photo))
  {
    ghost var checks := RegistrationChecks(f, dob, now, minAge, emailValid, photo);
    if AnyFieldEmpty(f) {
      error := Some(MissingFields);
      FirstFailureAt(checks, 0);
    } else if dob.None? {
      error := Some(InvalidDateOfBirth);
      FirstFailureAt(checks, 1);
    } else if dob.value > now {
      error := Some(FutureDateOfBirth);
      FirstFailureAt(checks, 2);
    } else if dob.value > minAge {
      error := Some(Underage);
      FirstFailureAt(checks, 3);
    } else if !emailValid {
      error := Some(InvalidEmail);
      FirstFailureAt(checks, 4);
    } else if |f.password| < PASSWORD_MIN_LENGTH {
      error := Some(PasswordTooShort);
      FirstFailureAt(checks, 5);
    } else if !ServerPasswordComposition(f.password) {
      error := Some(PasswordComposition);
      FirstFailureAt(checks, 6);
    } else if f.password != f.confirmPassword {
      error := Some(PasswordMismatch);
      FirstFailureAt(checks, 7);
    } else if !UploadPresent(photo) {
      error := Some(NoPhoto);
      FirstFailureAt(checks, 8);
    } else {
      var uploadErrors := ValidateImageUpload(photo);
      if uploadErrors != [] {
        error := Some(ImageRejected(uploadErrors));
        FirstFailureAt(checks, 9);
      } else {
        error := None;
        FirstFailureSpec(checks);
      }
    }
  }

  /** The age rule's boundary: a date of birth exactly at "now minus 18 years"
      gets past the age rule, one second later does not. */
  lemma AgeBoundary(f: Fields, now: int, minAge: int, emailValid: bool, photo: Option<UploadedFile>)
    requires !AnyFieldEmpty(f) && minAge < now
    ensures FirstFailure(RegistrationChecks(f, Some(minAge), now, minAge, emailValid, photo)) != Some(Underage)
    ensures FirstFailure(RegistrationChecks(f, Some(minAge + 1), now, minAge, emailValid, photo)) == Some(Underage)
  {
    var accepted := RegistrationChecks(f, Some(minAge), now, minAge, emailValid, photo);
    FirstFailureSpec(accepted);
    FirstFailureAt(RegistrationChecks(f, Some(minAge + 1), now, minAge, emailValid, photo), 3);
  }

  /** A request that passes every rule has a photo that arrived without a
      transport error and breaks none of the content rules; its password has
      at least 8 characters, a lower-case letter, an upper-case letter and a
      digit on its first line, and equals the confirmation. */
  lemma PassingChainMeans(f: Fields, dob: Option<int>, now: int, minAge: int,
                          emailValid: bool, photo: Option<UploadedFile>)
    requires FirstFailure(RegistrationChecks(f, dob, now, minAge, emailValid, photo)).None?
    ensures !AnyFieldEmpty(f) && emailValid
    ensures dob.Some? && dob.value <= now && dob.value <= minAge
    ensures |f.password| >= PASSWORD_MIN_LENGTH && ServerPasswordComposition(f.password)
    ensures f.password == f.confirmPassword
    ensures UploadPresent(photo) && ImageUploadErrors(photo) == []
  {
    var checks := RegistrationChecks(f, dob, now, minAge, emailValid, photo);
    FirstFailureSpec(checks);
    assert !checks[0].failed && !checks[1].failed && !checks[2].failed && !checks[3].failed;
    assert !checks[4].failed && !checks[5].failed && !checks[6].failed && !checks[7].failed;
    assert !checks[8].failed && !checks[9].failed;
  }

  // ---------------------------------------------------------------------
  // Generated names: the photo file name and the ID number
  // ---------------------------------------------------------------------

  /** `'profile_' . bin2hex(random_bytes(16)) . '.' . strtolower(extension)`. */
  function PhotoName(random: seq<Byte>, clientName: string): string {
    "profile_" + Bin2Hex(random) + "." + Lower(Extension(clientName))
  }

  /** The stored photo name is `profile_`, 32 lower-case hex digits, a dot and
      the lower-cased extension of the client's file name, and nothing else of
      the client's name. */
  lemma PhotoNameShape(random: seq<Byte>, clientName: string)
    requires |random| == 16
    ensures var name := PhotoName(random, clientName);
      && |name| == 41 + |Extension(clientName)|
      && name[..8] == "profile_"
      && (forall i :: 8 <= i < 40 ==> IsLowerHexDigit(name[i]))
      && name[40] == '.'
      && name[41..] == Lower(Extension(clientName))
      && '.' !in name[41..]
      && (forall i :: 41 <= i < |name| ==> !('A' <= name[i] <= 'Z'))
  {
    var name := PhotoName(random, clientName);
    var hex := Bin2Hex(random);
    var ext := Lower(Extension(clientName));
    assert name == "profile_" + hex + "." + ext;
    assert name[8..40] == hex;
    assert name[41..] == ext;
    LowerIsLower(Extension(clientName));
    assert forall i :: 0 <= i < |ext| ==> ext[i] != '.' by {
      forall i | 0 <= i < |ext| ensures ext[i] != '.' {
        assert ext[i] == LowerChar(Extension(clientName)[i]);
        assert Extension(clientName)[i] in Extension(clientName);
      }
    }
  }

  /** `sprintf('%06d', n)`: the decimal digits of `n`, zero-padded to six. */
  function ZeroPad6(n: nat): string {
    var d := Decimal(n);
    if |d| >= 6 then d else seq(6 - |d|, _ => '0') + d
  }

  /** `'ID' . date('Y') . sprintf('%06d', random_int(100000, 999999))`. */
  function IdNumber(year: Year, n: SixDigits): string {
    "ID" + Decimal(year) + ZeroPad6(n)
  }

  /** An ID number is "ID", the four digits of the year and six digits of the
      draw, and both numbers can be read back from it; so two ID numbers are
      equal only when year and draw are. */
  lemma IdNumberShape(year: Year, n: SixDigits)
    ensures var id := IdNumber(year, n);
      && |id| == 12 && id[..2] == "ID"
      && (forall i :: 2 <= i < 12 ==> IsDigit(id[i]))
      && ParseDecimal(id[2..6]) == year
      && ParseDecimal(id[6..]) == n
  {
    assert Pow10(3) == 1000 && Pow10(4) == 10000;
    assert Pow10(5) == 100000 && Pow10(6) == 1000000;
    DecimalSpec(year, 4);
    DecimalSpec(n, 6);
    var id := IdNumber(year, n);
    assert ZeroPad6(n) == Decimal(n);
    assert id[2..6] == Decimal(year);
    assert id[6..] == Decimal(n);
  }

  lemma IdNumberInjective(y1: Year, n1: SixDigits, y2: Year, n2: SixDigits)
    requires IdNumber(y1, n1) == IdNumber(y2, n2)
    ensures y1 == y2 && n1 == n2
  {
    IdNumberShape(y1, n1);
    IdNumberShape(y2, n2);
  }

  /** The ID number built from draw `n` already belongs to a user. */
  predicate DrawTaken(users: map<int, User>, year: Year, n: SixDigits) {
    IdNumberInUse(users, IdNumber(year, n))
  }

  /** The do-while loop of register.php: draw ID numbers until the lookup
      finds no user with that number. `attempts` is how many draws it took. */
  method DrawIdNumber(users: map<int, User>, year: Year, draws: seq<SixDigits>)
    returns (idNumber: string, attempts: nat)
    requires exists k :: 0 <= k < |draws| && !DrawTaken(users, year, draws[k])
    ensures 1 <= attempts <= |draws|
    ensures idNumber == IdNumber(year, draws[attempts - 1])
    ensures !IdNumberInUse(users, idNumber)
    ensures forall j :: 0 <= j < attempts - 1 ==> DrawTaken(users, year, draws[j])
  {
    ghost var free :| 0 <= free < |draws| && !DrawTaken(users, year, draws[free]);
    var i := 0;
    idNumber := IdNumber(year, draws[0]);
    while IdNumberInUse(users, idNumber)
      invariant 0 <= i <= free
      invariant idNumber == IdNumber(year, draws[i])
      invariant forall j :: 0 <= j < i ==> DrawTaken(users, year, draws[j])
      decreases free - i
    {
      assert DrawTaken(users, year, draws[i]);
      assert i != free;
      ghost var prev := i;
      i := i + 1;
      assert forall j :: 0 <= j < i ==> DrawTaken(users, year, draws[j]) by {
        forall j | 0 <= j < i ensures DrawTaken(users, year, draws[j]) {
          if j < prev { } else { assert j == prev; }
        }
      }
      idNumber := IdNumber(year, draws[i]);
    }
    attempts := i + 1;
  }

  // ---------------------------------------------------------------------
  // The handler
  // ---------------------------------------------------------------------

  /** Everything that decides the request before any side effect: the CSRF
      check, the validation chain and the duplicate-email lookup. */
  function Rejection(storedToken: Option<string>, form: RegisterForm, platform: Platform,
                     env: RegisterEnv, users: map<int, User>): Option<RegisterError>
  {
    if !RequestTokenValid(storedToken, form.csrfToken) then Some(CsrfFailed)
    else
      var f := SanitizedFields(form);
      var chain := FirstFailure(RegistrationChecks(f, platform.strtotime(f.dateOfBirth), env.now,
                                                   env.minAgeTimestamp, platform.filterEmail(f.email), form.photo));
      if chain.Some? then chain
      else if EmailInUse(users, f.email) then Some(EmailExists)
      else None
  }

  /** The part of the handler that runs before any side effect. */
  method CheckRequest(storedToken: Option<string>, form: RegisterForm, platform: Platform,
                      env: RegisterEnv, users: map<int, User>)
    returns (rejection: Option<RegisterError>)
    ensures rejection == Rejection(storedToken, form, platform, env, users)
    ensures rejection.None? ==> UploadPresent(form.photo) && !EmailInUse(users, SanitizedFields(form).email)
  {
    if !RequestTokenValid(storedToken, form.csrfToken) {
      return Some(CsrfFailed);
    }
    var f := SanitizedFields(form);
    var dob := platform.strtotime(f.dateOfBirth);
    rejection := ValidateRegistration(f, dob, env.now, env.minAgeTimestamp, platform.filterEmail(f.email), form.photo);
    if rejection.None? && EmailInUse(users, f.email) {
      rejection := Some(EmailExists);
    }
    if rejection.None? {
      AcceptedHasPhoto(storedToken, form, platform, env, users);
    }
  }

  /** The row the INSERT writes. */
  function NewUser(f: Fields, env: RegisterEnv, photoName: string, idNumber: string): User {
    User(f.email, env.passwordHash, f.firstName, f.lastName, f.dateOfBirth, f.jobType,
         Some(photoName), idNumber, env.now, env.now)
  }

  /** The name the photo is stored under; "" when there is no upload (never
      used then). */
  function StoredPhotoName(form: RegisterForm, env: RegisterEnv): string {
    if form.photo.Some? then PhotoName(env.photoBytes, form.photo.value.name) else ""
  }

  lemma AcceptedHasPhoto(storedToken: Option<string>, form: RegisterForm, platform: Platform,
                         env: RegisterEnv, users: map<int, User>)
    requires Rejection(storedToken, form, platform, env, users).None?
    ensures UploadPresent(form.photo)
  {
    var f := SanitizedFields(form);
    PassingChainMeans(f, platform.strtotime(f.dateOfBirth), env.now, env.minAgeTimestamp,
                      platform.filterEmail(f.email), form.photo);
  }

  /** register.php lines 13-111. The CSRF check comes before everything;
      until the photo is moved nothing changes; a failed move changes nothing;
      a failed insert leaves the table as it was and removes the moved photo;
      a successful insert adds exactly one row, under a fresh ID number. The
      UNIQUE constraints on email and ID number stay true throughout. */
  method Register(session: Session, db: Database, uploads: UploadDir, platform: Platform,
                  form: RegisterForm, env: RegisterEnv)
    returns (outcome: RegisterOutcome)
    requires db.Valid()
    requires |env.photoBytes| == 16
    requires exists k :: 0 <= k < |env.idDraws| && !DrawTaken(db.users, env.year, env.idDraws[k])
    modifies db`users, db`nextUserId, uploads`files
    ensures db.Valid()
    ensures var r := Rejection(old(session.csrfToken), form, platform, env, old(db.users));
      r.Some? ==> outcome == Rejected(r.value) && db.users == old(db.users) && uploads.files == old(uploads.files)
    ensures Rejection(old(session.csrfToken), form, platform, env, old(db.users)).None? && !env.moveOk ==>
      outcome == Rejected(PhotoMoveFailed) && db.users == old(db.users) && uploads.files == old(uploads.files)
    ensures Rejection(old(session.csrfToken), form, platform, env, old(db.users)).None? && env.moveOk && !env.insertOk ==>
      outcome == Rejected(InsertFailed) && db.users == old(db.users)
      && uploads.files == old(uploads.files) - {StoredPhotoName(form, env)}
    ensures Rejection(old(session.csrfToken), form, platform, env, old(db.users)).None? && env.moveOk && env.insertOk ==>
      && outcome.Registered?
      && (exists k :: 0 <= k < |env.idDraws| && outcome.idNumber == IdNumber(env.year, env.idDraws[k]))
      && !IdNumberInUse(old(db.users), outcome.idNumber)
      && db.users == old(db.users)[old(db.nextUserId) := NewUser(SanitizedFields(form), env, StoredPhotoName(form, env), outcome.idNumber)]
      && uploads.files == old(uploads.files) + {StoredPhotoName(form, env)}
  {
    var rejection := CheckRequest(session.csrfToken, form, platform, env, db.users);
    if rejection.Some? {
      return Rejected(rejection.value);
    }
    outcome := Admit(db, uploads, SanitizedFields(form), PhotoName(env.photoBytes, form.photo.value.name), env);
  }

  /** The side effects of an accepted request, register.php lines 57-111:
      move the photo, draw a free ID number, insert the row, and remove the
      photo again when the insert fails. */
  method Admit(db: Database, uploads: UploadDir, f: Fields, photoName: string, env: RegisterEnv)
    returns (outcome: RegisterOutcome)
    requires db.Valid()
    requires !EmailInUse(db.users, f.email)
    requires exists k :: 0 <= k < |env.idDraws| && !DrawTaken(db.users, env.year, env.idDraws[k])
    modifies db`users, db`nextUserId, uploads`files
    ensures db.Valid()
    ensures !env.moveOk ==>
      outcome == Rejected(PhotoMoveFailed) && db.users == old(db.users) && uploads.files == old(uploads.files)
    ensures env.moveOk && !env.insertOk ==>
      outcome == Rejected(InsertFailed) && db.users == old(db.users)
      && uploads.files == old(uploads.files) - {photoName}
    ensures env.moveOk && env.insertOk ==>
      && outcome.Registered?
      && (exists k :: 0 <= k < |env.idDraws| && outcome.idNumber == IdNumber(env.year, env.idDraws[k]))
      && !IdNumberInUse(old(db.users), outcome.idNumber)
      && db.users == old(db.users)[old(db.nextUserId) := NewUser(f, env, photoName, outcome.idNumber)]
      && uploads.files == old(uploads.files) + {photoName}
  {
    if !env.moveOk {
      return Rejected(PhotoMoveFailed);
    }
    uploads.files := uploads.files + {photoName};
    var idNumber, attempts := DrawIdNumber(db.users, env.year, env.idDraws);
    var row := NewUser(f, env, photoName, idNumber);
    if env.insertOk {
      var _ := db.InsertUser(row);
      outcome := Registered(idNumber);
      assert outcome.idNumber == IdNumber(env.year, env.idDraws[attempts - 1]);
    } else {
      if photoName in uploads.files {
        uploads.files := uploads.files - {photoName};
      }
      outcome := Rejected(InsertFailed);
    }
  }
}
