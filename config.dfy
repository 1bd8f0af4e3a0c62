/** includes/config.php: configuration constants, the per-browser session,
    and the security helpers every form handler uses (CSRF token issue and
    check, input sanitising, image-upload validation, periodic rotation of
    the session identifier). */
module Config {
  import opened PhpBuiltins

  const PASSWORD_MIN_LENGTH: nat := 8
  const MAX_FILE_SIZE: int := 5 * 1024 * 1024
  const ALLOWED_IMAGE_TYPES: seq<string> := ["image/jpeg", "image/jpg", "image/png", "image/webp"]
  /** PHP's UPLOAD_ERR_OK. */
  const UPLOAD_ERR_OK: int := 0
  /** Seconds after which the session identifier is regenerated. */
  const SESSION_LIFETIME: int := 1800

  const CSRF_FAILED: string := "Security token validation failed. Please try again."

  /** The library and platform functions whose behaviour is not part of this
      model: they are taken as given functions of their arguments. */
  datatype Platform = Platform(
    md5: string -> string,                  // md5()
    passwordVerify: (string, string) -> bool, // password_verify(plain, hash)
    filterEmail: string -> bool,            // filter_var(.., FILTER_VALIDATE_EMAIL) !== false
    strtotime: string -> Option<int>)       // strtotime(), None for false

  /** One entry of `$_FILES`: what the client sent, plus what content sniffing
      (`finfo_file`, `getimagesize`) reports on the temporary file. */
  datatype UploadedFile = UploadedFile(
    name: string,
    clientType: string,
    size: int,
    error: int,
    sniffedMime: string,
    isImage: bool)

  // ---------------------------------------------------------------------
  // The session ($_SESSION) and the helpers that update it
  // ---------------------------------------------------------------------

  /** The keys of `$_SESSION` that the handlers read and write; `None` is "not set". */
  class Session {
    var csrfToken: Option<string>
    var created: Option<int>
    /** How many times `session_regenerate_id` has run. */
    var rotations: nat
    var adminId: Option<int>
    var adminUsername: Option<string>
    var loginTime: Option<int>
    var contactError: Option<string>
    var contactSuccess: Option<string>

    constructor ()
      ensures csrfToken == None && created == None && rotations == 0
      ensures adminId == None && adminUsername == None && loginTime == None
      ensures contactError == None && contactSuccess == None
    {
      csrfToken, created, rotations := None, None, 0;
      adminId, adminUsername, loginTime := None, None, None;
      contactError, contactSuccess := None, None;
    }

    /** `generate_csrf_token`: the token is made once from 32 random bytes and
        then returned unchanged for the rest of the session. Whatever it
        returns is the one string the check below accepts. */
    method GenerateCsrfToken(random: seq<Byte>) returns (token: string)
      requires |random| == 32
      modifies this`csrfToken
      ensures old(csrfToken).Some? ==> token == old(csrfToken).value && csrfToken == old(csrfToken)
      ensures old(csrfToken).None? ==> token == Bin2Hex(random) && |token| == 64 && csrfToken == Some(token)
      ensures forall t :: VerifyCsrfToken(csrfToken, t) <==> t == token
    {
      if csrfToken.None? {
        csrfToken := Some(Bin2Hex(random));
      }
      token := csrfToken.value;
    }

    /** The rotation block run on every request: stamp a new session, and
        regenerate the identifier of one older than SESSION_LIFETIME seconds. */
    method RotateSessionId(now: int)
      modifies this`created, this`rotations
      ensures old(created).None? ==> created == Some(now) && rotations == old(rotations)
      ensures old(created).Some? && now - old(created).value > SESSION_LIFETIME ==>
                created == Some(now) && rotations == old(rotations) + 1
      ensures old(created).Some? && now - old(created).value <= SESSION_LIFETIME ==>
                created == old(created) && rotations == old(rotations)
    {
      if created.None? {
        created := Some(now);
      } else if now - created.value > SESSION_LIFETIME {
        rotations := rotations + 1;
        created := Some(now);
      }
    }
  }

  /** `verify_csrf_token`: fails when the session holds no token, otherwise
      holds exactly when the submitted token equals the stored one. */
  predicate VerifyCsrfToken(stored: Option<string>, submitted: string) {
    stored.Some? && stored.value == submitted
  }

  /** The guard every handler writes as
      `!isset($_POST['csrf_token']) || !verify_csrf_token($_POST['csrf_token'])`, negated. */
  predicate RequestTokenValid(stored: Option<string>, posted: Option<string>) {
    posted.Some? && VerifyCsrfToken(stored, posted.value)
  }

  // ---------------------------------------------------------------------
  // sanitize_input: trim, then htmlspecialchars(.., ENT_QUOTES)
  // ---------------------------------------------------------------------

  /** The characters that must never reach HTML raw. */
  predicate IsMarkupChar(c: char) {
    c == '<' || c == '>' || c == '"' || c == '\''
  }

  /** The characters `htmlspecialchars` with ENT_QUOTES rewrites. */
  predicate IsSpecialChar(c: char) {
    c == '&' || IsMarkupChar(c)
  }

  predicate NoSpecialChars(s: string) {
    forall i :: 0 <= i < |s| ==> !IsSpecialChar(s[i])
  }

  /** The entity of a special character; any other character stands for itself. */
  function EscapeChar(c: char): (e: string)
    ensures forall i :: 0 <= i < |e| ==> !IsMarkupChar(e[i])
    ensures !IsSpecialChar(c) ==> e == [c]
    ensures IsSpecialChar(c) ==> |e| > 1 && e[0] == '&' && e[|e| - 1] == ';'
  {
    if c == '&' then "&amp;"
    else if c == '<' then "&lt;"
    else if c == '>' then "&gt;"
    else if c == '"' then "&quot;"
    else if c == '\'' then "&#039;"
    else [c]
  }

  /** `htmlspecialchars($s, ENT_QUOTES)` (double encoding on, as by default). */
  function HtmlSpecialChars(s: string): (r: string)
    ensures forall i :: 0 <= i < |r| ==> !IsMarkupChar(r[i])
    ensures |r| >= |s|
    ensures NoSpecialChars(s) ==> r == s
    ensures !NoSpecialChars(s) ==> |r| > |s| && '&' in r
  {
    if s == [] then ""
    else
      var rest := HtmlSpecialChars(s[1..]);
      assert !NoSpecialChars(s) && NoSpecialChars(s[1..]) ==> IsSpecialChar(s[0]) by {
        if !NoSpecialChars(s) && NoSpecialChars(s[1..]) {
          var i :| 0 <= i < |s| && IsSpecialChar(s[i]);
          assert i == 0;
        }
      }
      var e := EscapeChar(s[0]);
      var r := e + rest;
      assert forall i :: |e| <= i < |r| ==> r[i] == rest[i - |e|];
      assert NoSpecialChars(s) ==> !IsSpecialChar(s[0]) && NoSpecialChars(s[1..]);
      r
  }

  /** Escaping starts with the first character or an entity's `&`, and ends
      with the last character or an entity's `;`. */
  lemma {:induction false} EscapeEnds(s: string)
    requires s != []
    ensures var r := HtmlSpecialChars(s);
      && r != [] && (r[0] == s[0] || r[0] == '&')
      && (r[|r| - 1] == s[|s| - 1] || r[|r| - 1] == ';')
  {
    var e, rest := EscapeChar(s[0]), HtmlSpecialChars(s[1..]);
    var r := HtmlSpecialChars(s);
    assert r == e + rest;
    assert r[0] == e[0];
    if |s| == 1 {
      assert r == e;
      if IsSpecialChar(s[0]) {
        assert r[|r| - 1] == ';';
      } else {
        assert r == [s[0]];
      }
    } else {
      EscapeEnds(s[1..]);
      assert r[|r| - 1] == rest[|rest| - 1];
      assert s[1..][|s| - 2] == s[|s| - 1];
    }
  }

  /** `sanitize_input`. */
  function SanitizeInput(s: string): string {
    HtmlSpecialChars(Trim(s))
  }

  /** `htmlspecialchars_decode($s, ENT_QUOTES)`: the entities above back to characters. */
  function HtmlSpecialCharsDecode(s: string): string {
    if s == [] then ""
    else if s[0] != '&' then [s[0]] + HtmlSpecialCharsDecode(s[1..])
    else if |s| >= 5 && s[..5] == "&amp;" then "&" + HtmlSpecialCharsDecode(s[5..])
    else if |s| >= 4 && s[..4] == "&lt;" then "<" + HtmlSpecialCharsDecode(s[4..])
    else if |s| >= 4 && s[..4] == "&gt;" then ">" + HtmlSpecialCharsDecode(s[4..])
    else if |s| >= 6 && s[..6] == "&quot;" then "\"" + HtmlSpecialCharsDecode(s[6..])
    else if |s| >= 6 && s[..6] == "&#039;" then "'" + HtmlSpecialCharsDecode(s[6..])
    else "&" + HtmlSpecialCharsDecode(s[1..])
  }

  /** Decoding undoes the escape of one leading character. */
  lemma DecodeEscapedChar(c: char, rest: string)
    ensures HtmlSpecialCharsDecode(EscapeChar(c) + rest) == [c] + HtmlSpecialCharsDecode(rest)
  {
    var e := EscapeChar(c);
    var s := e + rest;
    assert s[|e|..] == rest;
    assert s[..|e|] == e;
    if c == '&' {
      assert s[..5] == "&amp;" && s[1] == 'a';
      assert HtmlSpecialCharsDecode(s) == "&" + HtmlSpecialCharsDecode(s[5..]);
    } else if c == '<' {
      assert s[..4] == "&lt;" && s[1] == 'l';
      assert HtmlSpecialCharsDecode(s) == "<" + HtmlSpecialCharsDecode(s[4..]);
    } else if c == '>' {
      assert s[..4] == "&gt;" && s[1] == 'g';
      assert HtmlSpecialCharsDecode(s) == ">" + HtmlSpecialCharsDecode(s[4..]);
    } else if c == '"' {
      assert s[..6] == "&quot;" && s[1] == 'q';
      assert HtmlSpecialCharsDecode(s) == "\"" + HtmlSpecialCharsDecode(s[6..]);
    } else if c == '\'' {
      assert s[..6] == "&#039;" && s[1] == '#';
      assert HtmlSpecialCharsDecode(s) == "'" + HtmlSpecialCharsDecode(s[6..]);
    } else {
      assert s[0] == c && s[1..] == rest;
    }
  }

  /** Escaping loses nothing: decoding gives back the original text. */
  lemma {:induction false} DecodeOfEscape(s: string)
    ensures HtmlSpecialCharsDecode(HtmlSpecialChars(s)) == s
  {
    if s != [] {
      DecodeOfEscape(s[1..]);
      DecodeEscapedChar(s[0], HtmlSpecialChars(s[1..]));
      assert [s[0]] + s[1..] == s;
    }
  }

  /** What `sanitize_input` returns contains no raw `<`, `>`, `"` or `'`, and
      text free of special characters and surrounding whitespace passes through. */
  lemma SanitizeSpec(s: string)
    ensures forall i :: 0 <= i < |SanitizeInput(s)| ==> !IsMarkupChar(SanitizeInput(s)[i])
    ensures IsTrimmed(s) && NoSpecialChars(s) ==> SanitizeInput(s) == s
    ensures IsTrimmed(SanitizeInput(s))
  {
    TrimIsTrimmed(s);
    EscapeKeepsTrimmed(Trim(s));
    if IsTrimmed(s) {
      TrimOfTrimmed(s);
    }
  }

  /** Escaping a trimmed string leaves it trimmed: no entity starts or ends
      with a trim character. */
  lemma EscapeKeepsTrimmed(t: string)
    requires IsTrimmed(t)
    ensures IsTrimmed(HtmlSpecialChars(t))
  {
    if t != [] {
      var e := HtmlSpecialChars(t);
      EscapeEnds(t);
      assert !IsTrimChar(e[0]) by {
        assert e[0] == t[0] || e[0] == '&';
      }
      assert !IsTrimChar(e[|e| - 1]) by {
        assert e[|e| - 1] == t[|t| - 1] || e[|e| - 1] == ';';
      }
    }
  }

  /** Escaping changes a string exactly when it holds a special character. */
  lemma EscapeFixedPoint(t: string)
    ensures HtmlSpecialChars(t) == t <==> NoSpecialChars(t)
  {
  }

  /** Sanitising twice is escaping the trimmed input twice. */
  lemma SanitizeSanitized(s: string)
    ensures SanitizeInput(SanitizeInput(s)) == HtmlSpecialChars(HtmlSpecialChars(Trim(s)))
  {
    var e := HtmlSpecialChars(Trim(s));
    TrimIsTrimmed(s);
    EscapeKeepsTrimmed(Trim(s));
    TrimOfTrimmed(e);
  }

  /** Escaping twice changes the text exactly when it held a special character. */
  lemma EscapeTwice(t: string)
    ensures HtmlSpecialChars(HtmlSpecialChars(t)) == HtmlSpecialChars(t) <==> NoSpecialChars(t)
  {
    var e := HtmlSpecialChars(t);
    EscapeFixedPoint(e);
    if !NoSpecialChars(t) {
      var i :| 0 <= i < |e| && e[i] == '&';
      assert IsSpecialChar(e[i]);
    }
  }

  /** `sanitize_input` is not idempotent: sanitising twice gives the same text
      exactly when the trimmed input has none of `& < > " '`; in particular
      every `&` is escaped again on each application. */
  lemma SanitizeTwice(s: string)
    ensures SanitizeInput(SanitizeInput(s)) == SanitizeInput(s) <==> NoSpecialChars(Trim(s))
  {
    SanitizeSanitized(s);
    EscapeTwice(Trim(s));
  }

  // ---------------------------------------------------------------------
  // validate_image_upload
  // ---------------------------------------------------------------------

  datatype UploadError = NotUploaded | TooLarge | DisallowedType | NotAnImage

  function UploadErrorMessage(e: UploadError): string {
    match e
    case NotUploaded => "Please upload a valid image file."
    case TooLarge => "File size must be less than 5MB."
    case DisallowedType => "Only JPEG, PNG, and WebP images are allowed."
    case NotAnImage => "File is not a valid image."
  }

  /** The file arrived without a transport error. */
  predicate UploadPresent(file: Option<UploadedFile>) {
    file.Some? && file.value.error == UPLOAD_ERR_OK
  }

  /** Whether an uploaded file breaks one of the three content rules. */
  predicate Violates(f: UploadedFile, rule: UploadError) {
    match rule
    case NotUploaded => false
    case TooLarge => f.size > MAX_FILE_SIZE
    case DisallowedType => f.sniffedMime !in ALLOWED_IMAGE_TYPES
    case NotAnImage => !f.isImage
  }

  /** The content rules in the order they are checked. */
  const ContentRules: seq<UploadError> := [TooLarge, DisallowedType, NotAnImage]

  function RuleRank(e: UploadError): nat {
    match e
    case NotUploaded => 0
    case TooLarge => 1
    case DisallowedType => 2
    case NotAnImage => 3
  }

  function ViolatedRules(f: UploadedFile, rules: seq<UploadError>): seq<UploadError> {
    if rules == [] then []
    else (if Violates(f, rules[0]) then [rules[0]] else []) + ViolatedRules(f, rules[1..])
  }

  /** The errors `validate_image_upload` reports: the one transport error, or
      the content rules the file breaks, in rule order. */
  function ImageUploadErrors(file: Option<UploadedFile>): seq<UploadError> {
    if !UploadPresent(file) then [NotUploaded] else ViolatedRules(file.value, ContentRules)
  }

  predicate InRuleOrder(errors: seq<UploadError>) {
    forall i, j :: 0 <= i < j < |errors| ==> RuleRank(errors[i]) < RuleRank(errors[j])
  }

  /** Filtering an ordered list of rules keeps exactly the broken ones, in order. */
  lemma {:induction false} ViolatedRulesSpec(f: UploadedFile, rules: seq<UploadError>)
    requires InRuleOrder(rules)
    ensures forall e :: e in ViolatedRules(f, rules) <==> e in rules && Violates(f, e)
    ensures InRuleOrder(ViolatedRules(f, rules))
    ensures forall e :: e in ViolatedRules(f, rules) ==> RuleRank(e) >= RuleRank(rules[0])
  {
    if rules != [] {
      var tail := ViolatedRules(f, rules[1..]);
      ViolatedRulesSpec(f, rules[1..]);
      var r := ViolatedRules(f, rules);
      assert r == (if Violates(f, rules[0]) then [rules[0]] else []) + tail;
      forall e | e in tail ensures RuleRank(e) > RuleRank(rules[0]) {
        var k :| 0 <= k < |rules[1..]| && rules[1..][k] == e;
        assert rules[k + 1] == e;
      }
      forall e | e in rules ensures e in rules[1..] || e == rules[0] {
        var k :| 0 <= k < |rules| && rules[k] == e;
        if k > 0 { assert rules[1..][k - 1] == e; }
      }
    }
  }

  /** The content rules of one file, as the three appends produce them. */
  lemma ViolatedContentRules(f: UploadedFile)
    ensures ViolatedRules(f, ContentRules)
         == (if f.size > MAX_FILE_SIZE then [TooLarge] else [])
          + (if f.sniffedMime !in ALLOWED_IMAGE_TYPES then [DisallowedType] else [])
          + (if !f.isImage then [NotAnImage] else [])
  {
    var r1, r2 := ContentRules[1..], ContentRules[1..][1..];
    assert r1 == [DisallowedType, NotAnImage] && r2 == [NotAnImage] && r2[1..] == [];
    assert ViolatedRules(f, r2) == (if !f.isImage then [NotAnImage] else []);
    assert ViolatedRules(f, r1)
        == (if f.sniffedMime !in ALLOWED_IMAGE_TYPES then [DisallowedType] else []) + ViolatedRules(f, r2);
    assert ViolatedRules(f, ContentRules)
        == (if f.size > MAX_FILE_SIZE then [TooLarge] else []) + ViolatedRules(f, r1);
  }

  /** The content rules a present file breaks: each is reported once,
      exactly when it is broken, in the order size, type, content, and the
      list is empty exactly when all three pass. */
  lemma ContentErrorsSpec(f: UploadedFile)
    ensures NotUploaded !in ViolatedRules(f, ContentRules)
    ensures TooLarge in ViolatedRules(f, ContentRules) <==> f.size > MAX_FILE_SIZE
    ensures DisallowedType in ViolatedRules(f, ContentRules) <==> f.sniffedMime !in ALLOWED_IMAGE_TYPES
    ensures NotAnImage in ViolatedRules(f, ContentRules) <==> !f.isImage
    ensures InRuleOrder(ViolatedRules(f, ContentRules))
    ensures ViolatedRules(f, ContentRules) == []
        <==> f.size <= MAX_FILE_SIZE && f.sniffedMime in ALLOWED_IMAGE_TYPES && f.isImage
  {
    assert InRuleOrder(ContentRules);
    ViolatedRulesSpec(f, ContentRules);
    var errs := ViolatedRules(f, ContentRules);
    if errs != [] {
      assert errs[0] in errs;
    }
  }

  /** A missing upload gives exactly one error and nothing else is checked;
      a present one gives the content errors of ContentErrorsSpec. A file of
      exactly MAX_FILE_SIZE bytes passes the size rule. */
  lemma ImageUploadErrorsSpec(file: Option<UploadedFile>)
    ensures !UploadPresent(file) ==> ImageUploadErrors(file) == [NotUploaded]
    ensures UploadPresent(file) ==>
      var f, errs := file.value, ImageUploadErrors(file);
      && NotUploaded !in errs
      && (TooLarge in errs <==> f.size > MAX_FILE_SIZE)
      && (DisallowedType in errs <==> f.sniffedMime !in ALLOWED_IMAGE_TYPES)
      && (NotAnImage in errs <==> !f.isImage)
      && InRuleOrder(errs)
      && (errs == [] <==> f.size <= MAX_FILE_SIZE && f.sniffedMime in ALLOWED_IMAGE_TYPES && f.isImage)
  {
    if UploadPresent(file) {
      ContentErrorsSpec(file.value);
    }
  }

  /** `validate_image_upload`, appending one error per broken rule. */
  method ValidateImageUpload(file: Option<UploadedFile>) returns (errors: seq<UploadError>)
    ensures errors == ImageUploadErrors(file)
  {
    errors := [];
    if !UploadPresent(file) {
      errors := errors + [NotUploaded];
      return;
    }
    var f := file.value;
    if f.size > MAX_FILE_SIZE {
      errors := errors + [TooLarge];
    }
    if f.sniffedMime !in ALLOWED_IMAGE_TYPES {
      errors := errors + [DisallowedType];
    }
    if !f.isImage {
      errors := errors + [NotAnImage];
    }
    ViolatedContentRules(f);
  }
}
