# ID card system: verified model of the request handlers

This project models the decision and state-update logic of a small PHP web
application that issues employee ID cards. The application covers:

- public registration with a photo upload and a generated ID number;
- a contact form;
- an administrator area: sign-in with a legacy-MD5 upgrade path, user
  listing, search and deletion, user editing with photo replacement, and a
  message inbox with status filters;
- the browser-side validators of the registration form.

The persisted state is modelled directly:

- the `users`, `admin` and `messages` tables are maps from primary key to
  row, held by the `Store.Database` class;
- the `uploads/` directory is a set of file names (`Store.UploadDir`);
- the PHP session is a `Config.Session` object.

Each request handler is a method. It updates these objects and states its
outcome and new state outright, for every branch of the source. The rules
behind the handlers are functions with lemmas about them:

- the ordered validation chain;
- escaping and sanitising;
- upload checks;
- ID-number and file-name formats;
- `LIKE` search;
- pagination.

Outside facts come in as parameters or as function-typed fields of
`Config.Platform`:

- the clock and random draws;
- whether each SQL statement or file move succeeds;
- `password_verify`, `md5` and `filter_var`;
- the content sniffing of uploads.

Modules, one file each:

| file | module | models |
|---|---|---|
| php_builtins.dfy | PhpBuiltins | `trim`, `strtolower`, `bin2hex`, decimal rendering, `pathinfo` extension, `ceil` |
| config.dfy | Config | `includes/config.php`: constants, session, CSRF token, `sanitize_input`, `validate_image_upload` |
| store.dfy | Store | tables, uniqueness constraints, single-statement effects, upload directory |
| sql_like.dfy | SqlLike | MySQL `LIKE` under a case-insensitive collation |
| registration.dfy | Registration | `register.php` |
| admin_login.dfy | AdminLogin | `admin/login.php` |
| edit_user.dfy | EditUser | `admin/edit_user.php` |
| user_list.dfy | UserList | `admin/users.php` |
| message_inbox.dfy | MessageInbox | `admin/messages.php` |
| admin_lists.dfy | AdminLists | pagination shared by both admin lists |
| contact_intake.dfy | ContactIntake | `process_contact.php` |
| client_validation.dfy | ClientValidation | `assets/js/main.js` validators |

## Model

| member | source | states |
|---|---|---|
| PhpBuiltins.TrimLeft | includes/config.php:65 | The leading half of `trim`: the result is a suffix of the input, does not start with a trim character, and everything dropped is a trim character |
| PhpBuiltins.TrimRight | includes/config.php:65 | The trailing half of `trim`: the result is a prefix of the input, does not end with a trim character, and everything dropped is a trim character |
| PhpBuiltins.TrimIsTrimmed | includes/config.php:65 | What `trim` returns neither starts nor ends with space, tab, LF, CR, NUL or VT |
| PhpBuiltins.TrimOfTrimmed | includes/config.php:65 | `trim` leaves an already trimmed string unchanged |
| PhpBuiltins.Lower | register.php:74 | `strtolower` keeps the length and lower-cases each ASCII capital in place |
| PhpBuiltins.LowerIsLower | register.php:74 | No ASCII capital survives `strtolower`, and applying it twice is the same as once |
| PhpBuiltins.Bin2Hex | includes/config.php:55 | `bin2hex` gives two lower-case hex digits per byte |
| PhpBuiltins.Hex2BinOfBin2Hex | includes/config.php:55 | Decoding the hex text gives back the random bytes: the encoding loses nothing |
| PhpBuiltins.Decimal | register.php:83 | The rendering of a number is a non-empty run of decimal digits |
| PhpBuiltins.DecimalSpec | register.php:83 | A number with k significant digits renders as exactly k characters, which read back as the number |
| PhpBuiltins.Extension | register.php:74 | The extension contains no dot; it is empty when the name has no dot; otherwise the name ends with the dot and the extension |
| PhpBuiltins.CeilDiv | admin/users.php:74 | The ceiling of a/b: the least r with r·b ≥ a |
| Config.Session.constructor | includes/config.php:33 | A fresh session holds no token, no timestamp, no admin keys and no flash messages |
| Config.Session.GenerateCsrfToken | includes/config.php:53-58 | An existing token is returned and kept. Otherwise the token becomes the 64 hex characters of the 32 random bytes. Afterwards verification accepts exactly the returned token |
| Config.Session.RotateSessionId | includes/config.php:36-41 | A session without a timestamp is stamped. One older than 1800 seconds is regenerated and re-stamped. At exactly 1800 seconds or less nothing changes |
| Config.EscapeChar | includes/config.php:65 | A character other than `& < > " '` stays as it is; each of those becomes an entity `&…;` with no markup character in it |
| Config.HtmlSpecialChars | includes/config.php:65 | The output has no `<`, `>`, `"` or `'` and is never shorter than the input. Input without special characters is unchanged. Input with one grows and gains an `&` |
| Config.EscapeEnds | includes/config.php:65 | The escaped text of a non-empty string starts with its first character or an entity's `&`, and ends with its last character or an entity's `;` |
| Config.DecodeEscapedChar | includes/config.php:65 | Decoding an escaped character followed by more text gives the character followed by the decoding of the rest |
| Config.DecodeOfEscape | includes/config.php:65 | `htmlspecialchars_decode` undoes `htmlspecialchars` with ENT_QUOTES: the escaping is lossless |
| Config.SanitizeSpec | includes/config.php:64-66 | `sanitize_input` output has no raw `< > " '` and is trimmed. Trimmed input without special characters comes back unchanged |
| Config.EscapeKeepsTrimmed | includes/config.php:64-66 | Escaping a trimmed string leaves it trimmed |
| Config.EscapeFixedPoint | includes/config.php:65 | Escaping leaves a string unchanged exactly when it has none of `& < > " '` |
| Config.SanitizeSanitized | includes/config.php:64-66 | Sanitising twice is trimming once and escaping twice |
| Config.EscapeTwice | includes/config.php:65 | Escaping twice equals escaping once exactly when the text has no special character |
| Config.SanitizeTwice | includes/config.php:64-66 | `sanitize_input` is idempotent exactly when the trimmed input has no special character, so any `&` breaks idempotence |
| Config.ViolatedRulesSpec | includes/config.php:77-96 | Checking a list of rules in order reports exactly the broken ones, in rule order |
| Config.ViolatedContentRules | includes/config.php:77-96 | The three content checks report size, then MIME type, then image content, each exactly when broken |
| Config.ContentErrorsSpec | includes/config.php:77-96 | On a present upload: too large iff size > 5 MB; wrong type iff the sniffed MIME type is not allowed; not an image iff `getimagesize` fails. Errors come in rule order and are empty iff all pass |
| Config.ImageUploadErrorsSpec | includes/config.php:68-97 | A missing or failed upload yields exactly the one "upload a valid image" error. A present one yields exactly the broken content rules, in order, and none iff all three pass |
| Config.ValidateImageUpload | includes/config.php:68-97 | The step-by-step appends return the error list characterised above |
| Store.InsertKeepsUnique | register.php:94-97 | Inserting a row whose email and ID number are unused keeps both UNIQUE constraints |
| Store.ReplaceKeepsUnique | admin/edit_user.php:92-95 | Rewriting a row with an email no other row has and its own ID number keeps both UNIQUE constraints |
| Store.MarkedRead | admin/messages.php:22 | The named message, if it exists, becomes read; every other row and the key set are untouched |
| Store.Database.constructor | includes/config.php:15 | The connection sees the tables as they stand: any rows meeting the UNIQUE constraints, with AUTO_INCREMENT counters past every key in use |
| Store.Database.InsertUser | register.php:94-97 | The row goes in under the next AUTO_INCREMENT key, which was unused, and the constraints still hold |
| Store.Database.DeleteUserRow | admin/users.php:30-33 | Exactly that row disappears |
| Store.Database.InsertMessage | process_contact.php:25-28 | The message goes in under the next AUTO_INCREMENT key, which was unused |
| Store.Database.MarkMessageRead | admin/messages.php:21-25 | The messages table becomes the marked-read table |
| Store.Database.DeleteMessage | admin/messages.php:30-34 | Exactly that message disappears |
| Store.Database.UpdateUser | admin/edit_user.php:92-95 | The row is replaced and the UNIQUE constraints are kept |
| Store.UploadDir.constructor | register.php:67-71 | The upload directory holds the given files |
| SqlLike.LikeAnyMatchesAll | admin/users.php:59 | The pattern `%` matches every string |
| SqlLike.LikePrefix | admin/users.php:59 | A wildcard-free text followed by `%` matches exactly the strings that start with the text, ignoring case |
| SqlLike.LikeLeadingAny | admin/users.php:59 | A leading `%` matches exactly when the rest of the pattern matches some suffix |
| SqlLike.LikeContains | admin/users.php:58-59 | `%t%` with a wildcard-free t matches exactly the strings containing t, ignoring case |
| SqlLike.EscapeInTerm | admin/users.php:57-61 | MySQL's escape `\` acts inside the bound pattern: the term `a\b` finds "ab" though "ab" does not contain it, and a term ending in `\` makes the closing `%` a literal |
| SqlLike.EmptyPatternMatchesAll | admin/messages.php:62 | `%%` matches every string |
| Registration.FirstLine | register.php:45 | The part the anchored pattern inspects: the prefix up to the first line break, which it does not include |
| Registration.FirstFailureSpec | register.php:32-56 | The chain passes iff no rule fails; otherwise it reports the error of the first failing rule, and every earlier rule passed |
| Registration.FirstFailureAt | register.php:32-56 | If rule k fails and all before it pass, rule k's error is reported |
| Registration.ValidateRegistration | register.php:32-56 | The if/elseif chain reports the first failing rule of the ten: fields, date parse, future, under 18, email, length, composition, confirmation, upload present, image checks |
| Registration.AgeBoundary | register.php:29-40 | A birth timestamp equal to now minus 18 years is not rejected as under-age; one second later is |
| Registration.PassingChainMeans | register.php:32-56 | A request that passes the chain satisfies every rule: fields set, date valid, not future, 18+, email valid, length ≥ 8, composition, confirmation, an upload with no image errors |
| Registration.PhotoNameShape | register.php:74-75 | The stored name is `profile_`, 32 lower-case hex digits, `.` and the lower-cased extension, and nothing else of the client's name |
| Registration.IdNumberShape | register.php:83 | An ID number is 12 characters: `ID`, the four-digit year and the six-digit draw, both readable back |
| Registration.IdNumberInjective | register.php:83 | Two ID numbers are equal only when year and draw are equal |
| Registration.DrawIdNumber | register.php:82-88 | The do-while loop stops at the first draw not used by any user. Every earlier draw was taken, and the returned ID number is free |
| Registration.CheckRequest | register.php:14-64 | The read-only part decides the rejection: CSRF first, then the chain, then an existing email. An accepted request has an upload and a fresh email |
| Registration.AcceptedHasPhoto | register.php:49-56 | A request that is not rejected carries a valid upload |
| Registration.Register | register.php:13-111 | A rejected request changes no table and no file. A failed move changes nothing. A failed insert leaves the table as it was and removes the moved file. Success adds one row under the next key, with a fresh ID number from the draws and the stored photo name, which is then in the directory |
| Registration.Admit | register.php:66-106 | The effects after acceptance: move, draw, insert, and remove the file if the insert fails, stated per outcome as above |
| AdminLogin.AttemptAdmitted | admin/login.php:14-51 | An attempt is admitted as admin id exactly when the token is valid, both fields are non-empty, the username selects exactly that one row, and the password matches its stored form |
| AdminLogin.AdmittedOnlyIf | admin/login.php:14-51 | Admission implies a valid token, non-empty fields, a unique row and a password matching it (modern via `password_verify`, legacy via MD5 equality) |
| AdminLogin.AdmittedIf | admin/login.php:14-51 | Conversely, with those conditions met the attempt is admitted, flagged legacy iff the stored form is legacy |
| AdminLogin.RefusalsIndistinguishable | admin/login.php:62-65 | An unknown username and a wrong password give the same message "Invalid username or password." |
| AdminLogin.UniqueLookup | admin/login.php:24-29 | With unique usernames, a name present in the table selects exactly one row |
| AdminLogin.AfterLogin | admin/login.php:42-48 | Only the signed-in row can change, and only its password: it becomes the new modern hash when the legacy match's UPDATE succeeds; usernames never change |
| AdminLogin.Login | admin/login.php:5-69 | Signed in already: nothing changes. Refused: the session and the admin table are unchanged. Admitted: the session holds that row's id and username and the time, the id is regenerated, and only a legacy row's password is upgraded |
| AdminLogin.SignIn | admin/login.php:42-57 | The upgrade write and the session keys of an admitted attempt, as stated for Login |
| AdminLogin.CheckCredentials | admin/login.php:14-51 | The read-only checks compute the attempt's verdict; an admitted verdict names an existing row and is legacy iff its stored password is |
| AdminLogin.LegacyUpgradeSignsInAgain | admin/login.php:39-48 | After a successful upgrade the row holds the new modern hash, usernames stay unique, and the same password is admitted again through the modern path |
| AdminLogin.ModernHashUntouched | admin/login.php:36-37 | An admission through a modern hash writes nothing to the admin table |
| EditUser.Guard | admin/edit_user.php:5-27 | The page proceeds exactly when an admin is signed in and the id names an existing user. Otherwise it redirects to the login page or to the user list |
| EditUser.OwnEmailAccepted | admin/edit_user.php:50-56 | The user's own current email is never refused as taken, and an email held by another user is refused |
| EditUser.PhotoDecision | admin/edit_user.php:58-88 | No upload or an upload error keeps the photo. A replacement is accepted only with an allowed client type. Size over 5 MB never yields a replacement |
| EditUser.Decide | admin/edit_user.php:32-90 | A write happens only when every screening check passes. The photo written is the old one without a replacement and the moved file with one |
| EditUser.EditedRow | admin/edit_user.php:92-93 | The UPDATE writes first name, last name, email, date of birth and job type from the submitted fields, the chosen photo and the update time; it keeps id number, creation time and password hash |
| EditUser.UsersAfter | admin/edit_user.php:92-105 | Only the edited row changes, and only when the UPDATE succeeds |
| EditUser.DecideEdit | admin/edit_user.php:34-90 | The read-only screening computes the decision; a write never gives another user's email |
| EditUser.AsWrittenLosesPhotoOnFailedUpdate | admin/edit_user.php:76-105 | As written: when a replacement is moved in and the UPDATE fails, the row still names the old photo, which was already unlinked |
| EditUser.AsWrittenCounterexample | admin/edit_user.php:76-105 | A concrete instance of the above: user 1 with "a.png", replacement "b.png", failed UPDATE |
| EditUser.CorrectedKeepsPhotos | admin/edit_user.php:76-105 | With the old file unlinked only after a successful UPDATE, every row keeps naming an existing, unshared photo, whatever the UPDATE does |
| EditUser.EditAsWritten | admin/edit_user.php:5-110 | The handler as written: guard, GET, refusal and write paths, with the upload directory as the source leaves it |
| EditUser.Edit | admin/edit_user.php:5-110 | The corrected handler: the same paths, with the corrected file order |
| EditUser.ApplyAsWritten | admin/edit_user.php:76-105 | The effects in source order: move, unlink the old file, UPDATE |
| EditUser.ApplyCorrected | admin/edit_user.php:76-105 | The effects in corrected order: move, UPDATE, then unlink the old file or the new one |
| UserList.FilesAfterDelete | admin/users.php:35-37 | Deleting removes at most the row's photo file, and removes it when the row names one |
| UserList.HandleDelete | admin/users.php:5-46 | No admin: redirect, nothing changes. No request, a CSRF failure, an unknown id or a failed DELETE: nothing changes, with the matching message. Success removes exactly that row and then its photo file |
| UserList.DeleteKeepsPhotos | admin/users.php:30-37 | Deleting a row and its photo keeps every remaining row's photo present and unshared |
| UserList.TotalUsers | admin/users.php:63-72 | The count never exceeds the number of rows |
| UserList.NoSearchCountsAll | admin/users.php:57-72 | Without a (truthy) search term every row is counted |
| UserList.SearchMeansContains | admin/users.php:57-61 | With a wildcard-free term, a row is counted iff one of its five searched columns contains the term, ignoring case |
| AdminLists.TotalPagesSpec | admin/users.php:74 | The page count is 0 iff there are no rows, and it is the least number of 10-row pages holding every row |
| AdminLists.PagesCoverRows | admin/users.php:49-51 | Each page in range starts inside the rows, pages are 10 rows apart, and the last page holds 1 to 10 rows |
| AdminLists.UnclampedPages | admin/messages.php:44-46 | A page below 1 gives a negative offset and a page past the end an offset beyond the rows: the page is not clamped |
| MessageInbox.HandleAction | admin/messages.php:5-41 | No admin or no request: nothing changes. A CSRF failure: nothing changes. `mark_read` marks the message read and `delete` removes exactly it when the statement succeeds; a failed statement changes nothing; any other action changes nothing and sets no flash |
| MessageInbox.MarkReadIdempotent | admin/messages.php:21-26 | Marking read twice is marking read once; only the named message's status changes |
| MessageInbox.StatusFilter | admin/messages.php:48-58 | The filter restricts to unread iff it is "unread", to read iff it is "read", and otherwise not at all |
| MessageInbox.WhereConditions | admin/messages.php:51-66 | The conditions built hold of a message exactly when it passes the filter and the search. There are none iff neither applies, and at most two |
| MessageInbox.BadgesAddUp | admin/messages.php:100-102 | The unread and read badges add up to the total and equal the counts of the two filtered views |
| MessageInbox.FiltersPartition | admin/messages.php:48-66 | The unread and read views are disjoint and together form the "all" view; any other filter value lists what "all" lists |
| MessageInbox.SearchMeansContains | admin/messages.php:60-66 | With a wildcard-free term, a message is listed iff it has the filter's status and one of its four searched columns contains the term |
| ContactIntake.ContactCheck | process_contact.php:4-36 | A request is accepted iff it is a POST with a valid token, no empty field and a valid email. A non-POST and a CSRF failure get their own errors |
| ContactIntake.HandleContact | process_contact.php:4-36 | A rejected request sets only the error flash and inserts nothing. A failed insert sets the send-failed error. Success inserts exactly one row with the sanitised fields and sets only the thank-you flash |
| ContactIntake.SanitizedHasNoMarkup | process_contact.php:12-16 | Every sanitised field is trimmed and has no raw markup character |
| ContactIntake.StoredRowIsEscaped | process_contact.php:12-26 | The stored message row is unread, and each of its text columns is trimmed and free of raw markup characters |
| ClientValidation.MetCount | assets/js/main.js:134-138 | The score never exceeds the number of criteria |
| ClientValidation.UnmetSpec | assets/js/main.js:97-117 | The unmet list holds exactly the broken criteria, in order, and met plus unmet make up all criteria |
| ClientValidation.ValidatePassword | assets/js/main.js:97-117 | The step-by-step pushes return the unmet password rules, in rule order |
| ClientValidation.PasswordErrorsSpec | assets/js/main.js:97-117 | Each failing rule is reported once, in the order length, lowercase, uppercase, digit; at most four errors; none iff the password is accepted |
| ClientValidation.PasswordStrength | assets/js/main.js:130-138 | The incrementing counter equals the number of the five criteria met |
| ClientValidation.MetStrengthCriteria | assets/js/main.js:134-138 | The score is the sum of one point per criterion: length, lowercase, uppercase, digit, special symbol |
| ClientValidation.AcceptedIsStrong | assets/js/main.js:130-162 | The score is at most 5. An accepted password scores at least 4, so it is labelled Good or Excellent, and 5 exactly when it has one of `!@#$%^&*` |
| ClientValidation.ClientAndServerComposition | assets/js/main.js:104-114 | Without a line break the browser's rules agree with the server's anchored pattern (register.php line 45); "aB\n1" passes the browser and fails the server |
| ClientValidation.IsValidEmailShape | assets/js/main.js:219-222 | The email check holds iff the string is run `@` run `.` run, with runs non-empty and free of whitespace and `@` |
| ClientValidation.ValidEmailHasShape | assets/js/main.js:219-222 | Every accepted email splits into that shape |
| ClientValidation.ShapeIsValidEmail | assets/js/main.js:219-222 | Every string of that shape is accepted |
| ClientValidation.ValidateFileUpload | assets/js/main.js:176-186 | The pushing steps return the file problems |
| ClientValidation.FileProblemsSpec | assets/js/main.js:176-186 | No file: no problem. A file is too big iff over 5 MB and refused iff its type is not allowed, independently, size first. When the browser's type is the sniffed one, both agree with the server's rules |

## Left out

- The database driver and SQL text: tables are maps. Every statement's success is a boolean parameter, and SELECTs are taken to succeed.
- The filesystem: `move_uploaded_file`, `unlink`, `file_exists` and the `mkdir` of `uploads/` act on a set of names. Permissions and partial writes are not modelled.
- Crypto and randomness: `random_bytes`, `random_int`, `uniqid` and the new `password_hash` are parameters. `password_verify`, `md5` and `password_get_info` are abstract functions or the `Modern | Legacy` tag. The timing property of `hash_equals` is not modelled, only its equality.
- `filter_var(..., FILTER_VALIDATE_EMAIL)`, `finfo_file` and `getimagesize` are abstract: the grammar and the sniffing are not part of this model.
- `strtotime`, `time` and `date('Y')`: timestamps are integers, the parsed birth date is an optional integer, and the 18-year bound is given.
- `session_start`, cookies, headers and redirects: the session is the keys the handlers use, `session_regenerate_id` is a rotation counter, and a redirect is an outcome value.
- The check-then-insert race between the ID-number lookup and the INSERT, and concurrency in general.
- Registration.DrawIdNumber: the loop is given a finite list of draws that contains a free one. A run of draws that never finds a free number, where the source loops forever, is not modelled.
- The `(int)` cast of request parameters: ids and page numbers arrive as integers. The cast of non-numeric text is not modelled.
- Page contents: `ORDER BY created_at DESC LIMIT ? OFFSET ?` and the rows shown are not modelled; only counts, offsets and page counts are. MySQL's handling of a negative OFFSET is not modelled.
- SqlLike.LikeContains: case folding covers ASCII letters only, and other collation rules of the database are not modelled. `Like` interprets `%`, `_` and the escape `\` in a term as MySQL does, but the containment lemmas (LikePrefix, LikeContains and both SearchMeansContains) only describe terms free of `%`, `_` and `\`; `SqlLike.EscapeInTerm` shows how a `\` changes the search.
- SqlLike.LikePrefix: stated only for terms free of `%`, `_` and `\`; for other terms the prefix search is what `Like` itself computes.
- Store.EmailInUse: the email, username and ID-number lookups and the UNIQUE constraints compare exactly, while `LIKE` folds case. Under a case-insensitive collation "Bob@x.com" would also collide with "bob@x.com"; that folding of `=` is not modelled.
- Config.SanitizeInput: request text is taken to be valid UTF-8. `htmlspecialchars` returns "" for invalid UTF-8 (ENT_SUBSTITUTE is not set), which the `empty()` checks then reject; that path is not modelled, since a string here holds only Unicode characters.
- Registration.ValidateRegistration: password length is counted in characters, while `strlen` counts UTF-8 bytes. A password with non-ASCII characters may pass the source's length rule with fewer than 8 characters.
- ClientValidation.ValidatePassword: JavaScript's `length` counts UTF-16 units. The model counts characters, and `\d` and `\s` are taken as ASCII digits and the usual whitespace characters.
- HTML rendering and DOM code: markup, `displayErrors`, `markFieldError`, `showImagePreview`, the `UIEnhancements` class and `printIdCard`. Also the form-wide client validation that only wires these validators to fields.
- ClientValidation.CriterionMessage: only the four messages `validatePassword` can push are modelled; the strength meter shows no message per criterion.
- AdminLogin.Login and Registration.Register: the GET request, which only renders the form, is not modelled.
- The success messages of the edit page and the registration page's full success text: only the outcome and the generated ID number are modelled.
- Display-only pages (dashboard.php, admin/dashboard.php, admin/view_user.php, index.php) and reset_admin_password.php are not part of this model.
- EditUser.CorrectedKeepsPhotos: the uniqueness of `uniqid` names is assumed, as a requirement that the new name is not already in the directory.

## Findings

| source | as written | input that shows it | evidently intended | confidence | as-written member | corrected member |
|---|---|---|---|---|---|---|
| admin/edit_user.php:76-105 | The old photo is unlinked right after the new one is moved in (lines 77-80), before the UPDATE runs (lines 90-105) | User 1 whose photo is "a.png", present in uploads; a replacement moved in as "b.png"; the UPDATE fails. The row still names "a.png", which no longer exists | Unlink the old photo only after the UPDATE succeeds, and remove the new file when it fails, so every row names an existing photo | not executed | EditUser.AsWrittenCounterexample | EditUser.CorrectedKeepsPhotos |

`EditUser.AsWrittenLosesPhotoOnFailedUpdate` states the same loss for every
input, and `EditUser.EditAsWritten` is the handler in source order. The
corrected order is `EditUser.ApplyCorrected`, which `EditUser.Edit` uses.
