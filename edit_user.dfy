/** admin/edit_user.php: an administrator edits a user's name, email, date
    of birth, job type and, optionally, photo. The ID number, the password
    hash and the creation time are never written. */
module EditUser {
  import opened PhpBuiltins
  import opened Config
  import opened Store

  const EMAIL_TAKEN: string := "Email already exists for another user."
  const PHOTO_MOVE_FAILED: string := "Failed to upload photo. Please try again."
  const UPDATE_FAILED: string := "Failed to update user. Please try again."

  /** The message for a rejected replacement photo; it quotes the size limit
      in megabytes. */
  function InvalidPhotoMessage(): string {
    "Invalid photo format or size. Please upload a JPG, JPEG, or PNG file under "
      + Decimal(MAX_FILE_SIZE / 1024 / 1024) + "MB."
  }

  /** The POST body and the optional new photo; a missing text field is "". */
  datatype EditForm = EditForm(
    csrfToken: Option<string>,
    firstName: string,
    lastName: string,
    email: string,
    dateOfBirth: string,
    jobType: string,
    photo: Option<UploadedFile>)

  /** The five editable text fields after `sanitize_input`. */
  datatype EditFields = EditFields(firstName: string, lastName: string, email: string,
                                   dateOfBirth: string, jobType: string)

  function SanitizedEdit(form: EditForm): EditFields {
    EditFields(SanitizeInput(form.firstName), SanitizeInput(form.lastName), SanitizeInput(form.email),
               SanitizeInput(form.dateOfBirth), SanitizeInput(form.jobType))
  }

  /** NOW(), the value of `uniqid()`, and whether the move and the UPDATE succeed. */
  datatype EditEnv = EditEnv(now: int, uniqueId: string, moveOk: bool, updateOk: bool)

  datatype EditOutcome =
    | RedirectToLogin
    | RedirectToUsers
    | ShowForm                  // a GET: the form is shown, nothing changes
    | EditFailed(message: string)
    | Updated

  /** The guards in front of the page: an administrator must be signed in,
      and `(int)$_GET['id']` must be non-zero and name an existing user. */
  function Guard(adminId: Option<int>, userId: int, users: map<int, User>): (r: Option<EditOutcome>)
    ensures r.None? <==> adminId.Some? && userId != 0 && userId in users
    ensures r.Some? ==> r.value == (if adminId.None? then RedirectToLogin else RedirectToUsers)
  {
    if adminId.None? then Some(RedirectToLogin)
    else if userId == 0 then Some(RedirectToUsers)
    else if userId !in users then Some(RedirectToUsers)
    else None
  }

  /** The checks before the photo: CSRF, the five required fields, the email
      format, and an email that belongs to another user. */
  function Screen(storedToken: Option<string>, users: map<int, User>, userId: int,
                  platform: Platform, csrfToken: Option<string>, f: EditFields): Option<string>
  {
    if !RequestTokenValid(storedToken, csrfToken) then Some(CSRF_FAILED)
    else if IsEmpty(f.firstName) || IsEmpty(f.lastName) || IsEmpty(f.email)
            || IsEmpty(f.dateOfBirth) || IsEmpty(f.jobType) then Some("All fields are required.")
    else if !platform.filterEmail(f.email) then Some("Invalid email format.")
    else if EmailTakenByOther(users, f.email, userId) then Some(EMAIL_TAKEN)
    else None
  }

  /** The user's own current email never counts as taken, and an email held
      by a different row always does. */
  lemma OwnEmailAccepted(storedToken: Option<string>, users: map<int, User>, userId: int,
                         platform: Platform, csrfToken: Option<string>, f: EditFields)
    requires UsersUnique(users) && userId in users
    requires RequestTokenValid(storedToken, csrfToken)
    ensures f.email == users[userId].email ==>
      Screen(storedToken, users, userId, platform, csrfToken, f) != Some(EMAIL_TAKEN)
    ensures EmailTakenByOther(users, f.email, userId) ==>
      Screen(storedToken, users, userId, platform, csrfToken, f).Some?
  {
    if f.email == users[userId].email {
      assert !EmailTakenByOther(users, f.email, userId);
      var r := Screen(storedToken, users, userId, platform, csrfToken, f);
      if r.Some? {
        assert r.value[0] == 'A' || r.value[0] == 'I';
      }
    }
  }

  /** The name a replacement photo is stored under: `uniqid() . '.' . extension`,
      with the extension as the client sent it. */
  function ReplacementName(uniqueId: string, file: UploadedFile): string {
    uniqueId + "." + Extension(file.name)
  }

  datatype PhotoStep = KeepPhoto | Replace(newName: string) | PhotoError(message: string)

  /** The photo part of the handler: with no upload, or an upload that
      reports a transport error, the old photo stays; otherwise the client's
      declared type must be allowed and the size at most MAX_FILE_SIZE, and
      then the file must be moved. */
  function PhotoDecision(photo: Option<UploadedFile>, uniqueId: string, moveOk: bool): (r: PhotoStep)
    ensures r.Replace? ==> photo.Some? && photo.value.clientType in ALLOWED_IMAGE_TYPES
                           && photo.value.size <= MAX_FILE_SIZE && moveOk
    ensures photo.Some? && photo.value.error == UPLOAD_ERR_OK && photo.value.size > MAX_FILE_SIZE ==>
      r == PhotoError(InvalidPhotoMessage())
    ensures (photo.None? || photo.value.error != UPLOAD_ERR_OK) <==> r == KeepPhoto
  {
    if photo.None? || photo.value.error != UPLOAD_ERR_OK then KeepPhoto
    else if !(photo.value.clientType in ALLOWED_IMAGE_TYPES && photo.value.size <= MAX_FILE_SIZE)
    then PhotoError(InvalidPhotoMessage())
    else if !moveOk then PhotoError(PHOTO_MOVE_FAILED)
    else Replace(ReplacementName(uniqueId, photo.value))
  }

  /** What a POST decides: a refusal, or a write of the row with the given
      photo value, having moved a new file under `moved` if there is one. */
  datatype EditStep = Refuse(message: string) | Write(photo: Option<string>, moved: Option<string>)

  function Decide(storedToken: Option<string>, users: map<int, User>, userId: int,
                  platform: Platform, form: EditForm, env: EditEnv): (r: EditStep)
    requires userId in users
    ensures r.Write? ==> Screen(storedToken, users, userId, platform, form.csrfToken, SanitizedEdit(form)).None?
    ensures r.Write? && r.moved.None? ==> r.photo == users[userId].photo
    ensures r.Write? && r.moved.Some? ==> r.photo == r.moved
  {
    var screened := Screen(storedToken, users, userId, platform, form.csrfToken, SanitizedEdit(form));
    if screened.Some? then Refuse(screened.value)
    else
      match PhotoDecision(form.photo, env.uniqueId, env.moveOk)
      case PhotoError(m) => Refuse(m)
      case KeepPhoto => Write(users[userId].photo, None)
      case Replace(n) => Write(Some(n), Some(n))
  }

  /** The row the UPDATE leaves: the five fields, the photo and `updated_at`
      are written; everything else is kept. */
  function EditedRow(u: User, f: EditFields, photo: Option<string>, now: int): (r: User)
    ensures r.idNumber == u.idNumber && r.createdAt == u.createdAt && r.passwordHash == u.passwordHash
    ensures r.email == f.email && r.photo == photo && r.updatedAt == now
    ensures r.firstName == f.firstName && r.lastName == f.lastName
    ensures r.dateOfBirth == f.dateOfBirth && r.jobType == f.jobType
  {
    User(f.email, u.passwordHash, f.firstName, f.lastName, f.dateOfBirth, f.jobType, photo,
         u.idNumber, u.createdAt, now)
  }

  /** The table after the UPDATE, which changes only the edited row, and only
      when it succeeds. */
  function UsersAfter(users: map<int, User>, userId: int, row: User, updateOk: bool): (r: map<int, User>)
    ensures r.Keys == users.Keys
    ensures forall id :: id in users && id != userId ==> r[id] == users[id]
    ensures userId in users ==> r[userId] == (if updateOk then row else users[userId])
  {
    if updateOk && userId in users then users[userId := row] else users
  }

  // ---------------------------------------------------------------------
  // The upload directory afterwards: as written, and corrected
  // ---------------------------------------------------------------------

  /** As written: the new file is moved in and the old one is unlinked
      straight away, before the UPDATE runs, whatever the UPDATE then does. */
  function FilesAsWritten(files: set<string>, oldPhoto: Option<string>, moved: Option<string>): set<string> {
    if moved.None? then files
    else
      var afterMove := files + {moved.value};
      if TruthyOpt(oldPhoto) && oldPhoto.value in afterMove then afterMove - {oldPhoto.value} else afterMove
  }

  /** Corrected: the old file is unlinked only once the UPDATE has succeeded
      (and only when it is not the new file); a failed UPDATE unlinks the new
      file instead, so the row keeps pointing at a file that still exists. */
  function FilesCorrected(files: set<string>, oldPhoto: Option<string>, moved: Option<string>,
                          updateOk: bool): set<string>
  {
    if moved.None? then files
    else
      var afterMove := files + {moved.value};
      if !updateOk then afterMove - {moved.value}
      else if TruthyOpt(oldPhoto) && oldPhoto != moved && oldPhoto.value in afterMove
      then afterMove - {oldPhoto.value}
      else afterMove
  }

  /** The discrepancy, for every input: when a replacement is moved in and
      the UPDATE then fails, the row still names the old photo, which as
      written has already been unlinked. */
  lemma AsWrittenLosesPhotoOnFailedUpdate(users: map<int, User>, files: set<string>, userId: int,
                                          row: User, moved: string)
    requires userId in users && TruthyOpt(users[userId].photo)
    requires users[userId].photo != Some(moved)
    ensures !PhotoPresent(UsersAfter(users, userId, row, false)[userId],
                          FilesAsWritten(files, users[userId].photo, Some(moved)))
  {
  }

  /** A concrete request that shows it: user 1 has photo "a.png", the upload
      directory holds it, a replacement is moved in as "b.png", and the UPDATE
      fails. Before, every row's photo exists; afterwards user 1's does not. */
  lemma AsWrittenCounterexample()
    ensures var u := User("x@example.com", "h", "A", "B", "2000-01-01", "Dev", Some("a.png"), "ID2024123456", 0, 0);
      var users := map[1 := u];
      var files := {"a.png"};
      && PhotosPresent(users, files) && PhotosDistinct(users)
      && !PhotosPresent(UsersAfter(users, 1, EditedRow(u, EditFields("A", "B", "x@example.com", "2000-01-01", "Dev"), Some("b.png"), 1), false),
                        FilesAsWritten(files, Some("a.png"), Some("b.png")))
  {
    var u := User("x@example.com", "h", "A", "B", "2000-01-01", "Dev", Some("a.png"), "ID2024123456", 0, 0);
    var users := map[1 := u];
    var files: set<string> := {"a.png"};
    var row := EditedRow(u, EditFields("A", "B", "x@example.com", "2000-01-01", "Dev"), Some("b.png"), 1);
    assert "a.png" != "b.png";
    AsWrittenLosesPhotoOnFailedUpdate(users, files, 1, row, "b.png");
  }

  /** With the corrected order, every row keeps naming an existing photo and
      no two rows share one, whether the UPDATE succeeds or fails, provided
      the new name is not already a file (which `uniqid` is there to ensure). */
  lemma CorrectedKeepsPhotos(users: map<int, User>, files: set<string>, userId: int, row: User,
                             moved: Option<string>, updateOk: bool)
    requires userId in users
    requires PhotosPresent(users, files) && PhotosDistinct(users)
    requires moved.Some? ==> moved.value !in files && row.photo == moved
    requires moved.None? ==> row.photo == users[userId].photo
    ensures PhotosPresent(UsersAfter(users, userId, row, updateOk),
                          FilesCorrected(files, users[userId].photo, moved, updateOk))
    ensures PhotosDistinct(UsersAfter(users, userId, row, updateOk))
  {
    var after := UsersAfter(users, userId, row, updateOk);
    var files' := FilesCorrected(files, users[userId].photo, moved, updateOk);
    forall id | id in after ensures PhotoPresent(after[id], files') {
      assert PhotoPresent(users[id], files);
    }
    forall a, b | a in after && b in after && TruthyOpt(after[a].photo) && after[a].photo == after[b].photo
      ensures a == b
    {
      assert PhotoPresent(users[a], files) && PhotoPresent(users[b], files);
    }
  }

  // ---------------------------------------------------------------------
  // The handler
  // ---------------------------------------------------------------------

  /** The decisions of a POST, before any side effect. */
  method DecideEdit(storedToken: Option<string>, users: map<int, User>, userId: int,
                    platform: Platform, form: EditForm, env: EditEnv)
    returns (step: EditStep)
    requires userId in users
    ensures step == Decide(storedToken, users, userId, platform, form, env)
    ensures step.Write? ==> !EmailTakenByOther(users, SanitizedEdit(form).email, userId)
  {
    if !RequestTokenValid(storedToken, form.csrfToken) {
      return Refuse(CSRF_FAILED);
    }
    var f := SanitizedEdit(form);
    if IsEmpty(f.firstName) || IsEmpty(f.lastName) || IsEmpty(f.email) || IsEmpty(f.dateOfBirth) || IsEmpty(f.jobType) {
      return Refuse("All fields are required.");
    }
    if !platform.filterEmail(f.email) {
      return Refuse("Invalid email format.");
    }
    if EmailTakenByOther(users, f.email, userId) {
      return Refuse(EMAIL_TAKEN);
    }
    assert Screen(storedToken, users, userId, platform, form.csrfToken, SanitizedEdit(form)).None?;
    var photoName := users[userId].photo;
    var moved: Option<string> := None;
    if form.photo.Some? && form.photo.value.error == UPLOAD_ERR_OK {
      var file := form.photo.value;
      if file.clientType in ALLOWED_IMAGE_TYPES && file.size <= MAX_FILE_SIZE {
        var newName := ReplacementName(env.uniqueId, file);
        if env.moveOk {
          photoName := Some(newName);
          moved := Some(newName);
          assert PhotoDecision(form.photo, env.uniqueId, env.moveOk) == Replace(newName);
        } else {
          assert PhotoDecision(form.photo, env.uniqueId, env.moveOk) == PhotoError(PHOTO_MOVE_FAILED);
          return Refuse(PHOTO_MOVE_FAILED);
        }
      } else {
        assert PhotoDecision(form.photo, env.uniqueId, env.moveOk) == PhotoError(InvalidPhotoMessage());
        return Refuse(InvalidPhotoMessage());
      }
    } else {
      assert PhotoDecision(form.photo, env.uniqueId, env.moveOk) == KeepPhoto;
    }
    step := Write(photoName, moved);
  }

  /** admin/edit_user.php as written (lines 5-27 and 32-110): the old photo
      is unlinked as soon as the new one is moved in, before the UPDATE. */
  method EditAsWritten(session: Session, db: Database, uploads: UploadDir, platform: Platform,
                       userId: int, isPost: bool, form: EditForm, env: EditEnv)
    returns (outcome: EditOutcome)
    requires db.Valid()
    modifies db`users, uploads`files
    ensures db.Valid()
    ensures Guard(old(session.adminId), userId, old(db.users)).Some? ==>
      outcome == Guard(old(session.adminId), userId, old(db.users)).value
      && db.users == old(db.users) && uploads.files == old(uploads.files)
    ensures Guard(old(session.adminId), userId, old(db.users)).None? && !isPost ==>
      outcome == ShowForm && db.users == old(db.users) && uploads.files == old(uploads.files)
    ensures Guard(old(session.adminId), userId, old(db.users)).None? && isPost ==>
      var step := Decide(old(session.csrfToken), old(db.users), userId, platform, form, env);
      && (step.Refuse? ==>
            outcome == EditFailed(step.message) && db.users == old(db.users) && uploads.files == old(uploads.files))
      && (step.Write? ==>
            && uploads.files == FilesAsWritten(old(uploads.files), old(db.users)[userId].photo, step.moved)
            && db.users == UsersAfter(old(db.users), userId,
                 EditedRow(old(db.users)[userId], SanitizedEdit(form), step.photo, env.now), env.updateOk)
            && outcome == (if env.updateOk then Updated else EditFailed(UPDATE_FAILED)))
  {
    var guard := Guard(session.adminId, userId, db.users);
    if guard.Some? {
      return guard.value;
    }
    if !isPost {
      return ShowForm;
    }
    var user := db.users[userId];
    var step := DecideEdit(session.csrfToken, db.users, userId, platform, form, env);
    if step.Refuse? {
      return EditFailed(step.message);
    }
    var row := EditedRow(user, SanitizedEdit(form), step.photo, env.now);
    ApplyAsWritten(db, uploads, userId, row, step.moved, env.updateOk);
    outcome := if env.updateOk then Updated else EditFailed(UPDATE_FAILED);
  }


  /** The handler with the photo clean-up moved after the UPDATE: the old
      photo goes only once the row names the new one, and a failed UPDATE
      takes the new file away again. */
  method Edit(session: Session, db: Database, uploads: UploadDir, platform: Platform,
              userId: int, isPost: bool, form: EditForm, env: EditEnv)
    returns (outcome: EditOutcome)
    requires db.Valid()
    modifies db`users, uploads`files
    ensures db.Valid()
    ensures Guard(old(session.adminId), userId, old(db.users)).Some? ==>
      outcome == Guard(old(session.adminId), userId, old(db.users)).value
      && db.users == old(db.users) && uploads.files == old(uploads.files)
    ensures Guard(old(session.adminId), userId, old(db.users)).None? && !isPost ==>
      outcome == ShowForm && db.users == old(db.users) && uploads.files == old(uploads.files)
    ensures Guard(old(session.adminId), userId, old(db.users)).None? && isPost ==>
      var step := Decide(old(session.csrfToken), old(db.users), userId, platform, form, env);
      && (step.Refuse? ==>
            outcome == EditFailed(step.message) && db.users == old(db.users) && uploads.files == old(uploads.files))
      && (step.Write? ==>
            && uploads.files == FilesCorrected(old(uploads.files), old(db.users)[userId].photo, step.moved, env.updateOk)
            && db.users == UsersAfter(old(db.users), userId,
                 EditedRow(old(db.users)[userId], SanitizedEdit(form), step.photo, env.now), env.updateOk)
            && outcome == (if env.updateOk then Updated else EditFailed(UPDATE_FAILED)))
  {
    var guard := Guard(session.adminId, userId, db.users);
    if guard.Some? {
      return guard.value;
    }
    if !isPost {
      return ShowForm;
    }
    var user := db.users[userId];
    var step := DecideEdit(session.csrfToken, db.users, userId, platform, form, env);
    if step.Refuse? {
      return EditFailed(step.message);
    }
    var row := EditedRow(user, SanitizedEdit(form), step.photo, env.now);
    ApplyCorrected(db, uploads, userId, row, step.moved, env.updateOk);
    outcome := if env.updateOk then Updated else EditFailed(UPDATE_FAILED);
  }

  /** The side effects of an accepted edit, in the source's order: move the
      new file in, unlink the old photo if it is set and exists, then run the
      UPDATE, whose failure undoes nothing. */
  method ApplyAsWritten(db: Database, uploads: UploadDir, userId: int, row: User,
                        moved: Option<string>, updateOk: bool)
    requires db.Valid() && userId in db.users
    requires !EmailTakenByOther(db.users, row.email, userId) && row.idNumber == db.users[userId].idNumber
    modifies db`users, uploads`files
    ensures db.Valid()
    ensures uploads.files == FilesAsWritten(old(uploads.files), old(db.users)[userId].photo, moved)
    ensures db.users == UsersAfter(old(db.users), userId, row, updateOk)
  {
    var oldPhoto := db.users[userId].photo;
    if moved.Some? {
      uploads.files := uploads.files + {moved.value};
      if TruthyOpt(oldPhoto) && oldPhoto.value in uploads.files {
        uploads.files := uploads.files - {oldPhoto.value};
      }
    }
    if updateOk {
      db.UpdateUser(userId, row);
    }
  }

  /** The side effects with the clean-up after the UPDATE: move the new file
      in, run the UPDATE, and then unlink the old photo if the UPDATE
      succeeded, or the new file if it failed. */
  method ApplyCorrected(db: Database, uploads: UploadDir, userId: int, row: User,
                        moved: Option<string>, updateOk: bool)
    requires db.Valid() && userId in db.users
    requires !EmailTakenByOther(db.users, row.email, userId) && row.idNumber == db.users[userId].idNumber
    modifies db`users, uploads`files
    ensures db.Valid()
    ensures uploads.files == FilesCorrected(old(uploads.files), old(db.users)[userId].photo, moved, updateOk)
    ensures db.users == UsersAfter(old(db.users), userId, row, updateOk)
  {
    var oldPhoto := db.users[userId].photo;
    if moved.Some? {
      uploads.files := uploads.files + {moved.value};
    }
    if updateOk {
      db.UpdateUser(userId, row);
      if moved.Some? && TruthyOpt(oldPhoto) && oldPhoto != moved && oldPhoto.value in uploads.files {
        uploads.files := uploads.files - {oldPhoto.value};
      }
    } else if moved.Some? {
      uploads.files := uploads.files - {moved.value};
    }
  }

}
