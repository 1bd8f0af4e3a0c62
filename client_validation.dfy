/** assets/js/main.js: the browser-side checks of the registration form
    (password rules and strength meter, email shape, photo size and type).
    They mirror the server's rules but run on the text as the browser sees
    it. */
module ClientValidation {
  import opened PhpBuiltins
  import opened Config
  import Registration

  // ---------------------------------------------------------------------
  // validatePassword and the strength meter
  // ---------------------------------------------------------------------

  /** The password criteria: the first four are the rules `validatePassword`
      enforces, all five are what the strength meter counts. */
  datatype Criterion = LongEnough | HasLowerCase | HasUpperCase | HasNumber | HasSymbol

  /** `password.length >= 8` and the four lookahead tests. The patterns are
      not anchored, so each looks at the whole password. */
  predicate Meets(c: Criterion, password: string) {
    match c
    case LongEnough => |password| >= PASSWORD_MIN_LENGTH
    case HasLowerCase => HasLower(password)
    case HasUpperCase => HasUpper(password)
    case HasNumber => HasDigit(password)
    case HasSymbol => HasSpecialSymbol(password)
  }

  /** The message `validatePassword` pushes for a rule it finds broken; the
      symbol criterion is only scored, never reported. */
  function CriterionMessage(c: Criterion): string
    requires c != HasSymbol
  {
    if c == LongEnough then "Password must be at least " + Decimal(PASSWORD_MIN_LENGTH) + " characters long."
    else if c == HasLowerCase then "Password must contain at least one lowercase letter."
    else if c == HasUpperCase then "Password must contain at least one uppercase letter."
    else "Password must contain at least one number."
  }

  function Rank(c: Criterion): nat {
    match c
    case LongEnough => 0
    case HasLowerCase => 1
    case HasUpperCase => 2
    case HasNumber => 3
    case HasSymbol => 4
  }

  const PasswordRules: seq<Criterion> := [LongEnough, HasLowerCase, HasUpperCase, HasNumber]
  const StrengthCriteria: seq<Criterion> := PasswordRules + [HasSymbol]

  predicate Ascending(cs: seq<Criterion>) {
    forall i, j :: 0 <= i < j < |cs| ==> Rank(cs[i]) < Rank(cs[j])
  }

  /** The criteria of a list that a password does not meet, in list order. */
  function Unmet(password: string, cs: seq<Criterion>): seq<Criterion> {
    if cs == [] then []
    else
      var last := cs[|cs| - 1];
      Unmet(password, cs[..|cs| - 1]) + (if Meets(last, password) then [] else [last])
  }

  /** How many criteria of a list a password meets. */
  function MetCount(password: string, cs: seq<Criterion>): (n: nat)
    ensures n <= |cs|
  {
    if cs == [] then 0
    else MetCount(password, cs[..|cs| - 1]) + (if Meets(cs[|cs| - 1], password) then 1 else 0)
  }

  /** A password `validatePassword` lets through. */
  predicate PasswordAccepted(password: string) {
    |password| >= PASSWORD_MIN_LENGTH && HasLower(password) && HasUpper(password) && HasDigit(password)
  }

  /** Filtering an ascending list of criteria keeps exactly the unmet ones,
      still ascending, and the met and unmet ones add up to the whole list. */
  lemma UnmetSpec(password: string, cs: seq<Criterion>)
    requires Ascending(cs)
    ensures forall c :: c in Unmet(password, cs) <==> c in cs && !Meets(c, password)
    ensures Ascending(Unmet(password, cs))
    ensures MetCount(password, cs) + |Unmet(password, cs)| == |cs|
  {
    UnmetMembers(password, cs);
    UnmetAscending(password, cs);
    UnmetCount(password, cs);
  }

  lemma {:induction false} UnmetMembers(password: string, cs: seq<Criterion>)
    ensures forall c :: c in Unmet(password, cs) <==> c in cs && !Meets(c, password)
  {
    if cs != [] {
      var init, last := cs[..|cs| - 1], cs[|cs| - 1];
      UnmetMembers(password, init);
      assert cs == init + [last];
    }
  }

  lemma {:induction false} UnmetAscending(password: string, cs: seq<Criterion>)
    requires Ascending(cs)
    ensures Ascending(Unmet(password, cs))
  {
    if cs != [] {
      var init, last := cs[..|cs| - 1], cs[|cs| - 1];
      var front := Unmet(password, init);
      UnmetAscending(password, init);
      UnmetMembers(password, init);
      forall c | c in front ensures Rank(c) < Rank(last) {
        var k :| 0 <= k < |init| && init[k] == c;
        assert cs[k] == c;
      }
    }
  }

  lemma {:induction false} UnmetCount(password: string, cs: seq<Criterion>)
    ensures MetCount(password, cs) + |Unmet(password, cs)| == |cs|
  {
    if cs != [] {
      UnmetCount(password, cs[..|cs| - 1]);
    }
  }

  /** One more criterion at the end of the list adds its error, or its point. */
  lemma Snoc(password: string, cs: seq<Criterion>, k: nat)
    requires k < |cs|
    ensures Unmet(password, cs[..k + 1]) == Unmet(password, cs[..k]) + (if Meets(cs[k], password) then [] else [cs[k]])
    ensures MetCount(password, cs[..k + 1]) == MetCount(password, cs[..k]) + Point(cs[k], password)
  {
    assert cs[..k + 1][..k] == cs[..k];
  }

  /** `validatePassword`: one error per unmet rule, pushed in the order
      length, lowercase, uppercase, digit. */
  method ValidatePassword(password: string) returns (errors: seq<Criterion>)
    ensures errors == Unmet(password, PasswordRules)
  {
    var rules := PasswordRules;
    errors := [];
    assert rules[..0] == [];
    if |password| < PASSWORD_MIN_LENGTH {
      errors := errors + [LongEnough];
    }
    Snoc(password, rules, 0);
    if !HasLower(password) {
      errors := errors + [HasLowerCase];
    }
    Snoc(password, rules, 1);
    if !HasUpper(password) {
      errors := errors + [HasUpperCase];
    }
    Snoc(password, rules, 2);
    if !HasDigit(password) {
      errors := errors + [HasNumber];
    }
    Snoc(password, rules, 3);
    assert rules[..4] == rules;
  }

  /** What `validatePassword` returns: each rule at most once, exactly when
      it is broken, in rule order, at most four errors, and none at all
      exactly when the password is accepted. */
  lemma PasswordErrorsSpec(password: string)
    ensures var errs := Unmet(password, PasswordRules);
      && (forall c :: c in errs <==> c in PasswordRules && !Meets(c, password))
      && Ascending(errs)
      && |errs| <= 4
      && (errs == [] <==> PasswordAccepted(password))
  {
    assert Ascending(PasswordRules);
    UnmetSpec(password, PasswordRules);
    var errs := Unmet(password, PasswordRules);
    if errs == [] {
      assert LongEnough !in errs && HasLowerCase !in errs && HasUpperCase !in errs && HasNumber !in errs;
    } else {
      assert errs[0] in errs;
    }
  }

  /** The score of `checkPasswordStrength`: one point per criterion met,
      counted step by step. */
  method PasswordStrength(password: string) returns (strength: nat)
    ensures strength == MetCount(password, StrengthCriteria)
  {
    strength := 0;
    if |password| >= PASSWORD_MIN_LENGTH { strength := strength + 1; }
    if HasLower(password) { strength := strength + 1; }
    if HasUpper(password) { strength := strength + 1; }
    if HasDigit(password) { strength := strength + 1; }
    if HasSpecialSymbol(password) { strength := strength + 1; }
    MetStrengthCriteria(password);
  }

  /** The met criteria, criterion by criterion. */
  lemma MetStrengthCriteria(password: string)
    ensures MetCount(password, StrengthCriteria)
         == Point(LongEnough, password) + Point(HasLowerCase, password) + Point(HasUpperCase, password)
          + Point(HasNumber, password) + Point(HasSymbol, password)
  {
    var cs := StrengthCriteria;
    assert cs[..0] == [];
    Snoc(password, cs, 0);
    Snoc(password, cs, 1);
    Snoc(password, cs, 2);
    Snoc(password, cs, 3);
    Snoc(password, cs, 4);
    assert cs[..5] == cs;
  }

  function Point(c: Criterion, password: string): nat {
    if Meets(c, password) then 1 else 0
  }

  datatype StrengthLabel = VeryWeak | Weak | Fair | Good | Excellent

  /** The `switch (strength)` of the meter; a score is never above 5. */
  function Label(strength: nat): StrengthLabel
    requires strength <= 5
  {
    if strength <= 1 then VeryWeak
    else if strength == 2 then Weak
    else if strength == 3 then Fair
    else if strength == 4 then Good
    else Excellent
  }

  function LabelText(l: StrengthLabel): string {
    match l
    case VeryWeak => "Very Weak"
    case Weak => "Weak"
    case Fair => "Fair"
    case Good => "Good"
    case Excellent => "Excellent"
  }

  /** The score is between 0 and 5; a password `validatePassword` accepts
      scores at least 4, so the meter shows Good or Excellent for it, and it
      reaches 5 exactly when it also has one of `!@#$%^&*`. */
  lemma AcceptedIsStrong(password: string)
    ensures MetCount(password, StrengthCriteria) <= 5
    ensures PasswordAccepted(password) ==>
      && MetCount(password, StrengthCriteria) >= 4
      && Label(MetCount(password, StrengthCriteria)) in {Good, Excellent}
      && (MetCount(password, StrengthCriteria) == 5 <==> HasSpecialSymbol(password))
  {
    MetStrengthCriteria(password);
  }

  /** Without a line break the browser's rules and the server's composition
      rule agree; the server's anchored pattern only looks at the first
      line, so a break before the lowercase letter, capital or digit makes
      the two disagree. */
  lemma ClientAndServerComposition(password: string)
    ensures '\n' !in password ==>
      (Registration.ServerPasswordComposition(password) <==>
         HasLower(password) && HasUpper(password) && HasDigit(password))
    ensures var p := "aB\n1";
      HasLower(p) && HasUpper(p) && HasDigit(p) && !Registration.ServerPasswordComposition(p)
  {
    if '\n' !in password {
      var line := Registration.FirstLine(password);
      assert line == password;
    }
    var p := "aB\n1";
    assert p[0] == 'a' && p[1] == 'B' && p[3] == '1';
    assert Registration.FirstLine(p) == "aB";
    assert !HasDigit("aB") by {
      forall i | 0 <= i < 2 ensures !IsDigit("aB"[i]) { }
    }
  }

  // ---------------------------------------------------------------------
  // isValidEmail: /^[^\s@]+@[^\s@]+\.[^\s@]+$/
  // ---------------------------------------------------------------------

  /** JavaScript's `\s`: the ASCII white space, no-break space, the Unicode
      space separators, line and paragraph separators and the byte-order mark. */
  predicate IsJsSpace(c: char) {
    || c == ' ' || c == '\t' || c == '\n' || c == '\U{B}' || c == '\U{C}' || c == '\r'
    || c == '\U{A0}' || c == '\U{1680}' || ('\U{2000}' <= c <= '\U{200A}')
    || c == '\U{2028}' || c == '\U{2029}' || c == '\U{202F}' || c == '\U{205F}'
    || c == '\U{3000}' || c == '\U{FEFF}'
  }

  /** `[^\s@]+`. */
  predicate IsRun(s: string) {
    |s| >= 1 && forall i :: 0 <= i < |s| ==> !IsJsSpace(s[i]) && s[i] != '@'
  }

  /** The first position of `c` in `s`, or -1. */
  function IndexOf(s: string, c: char): (r: int)
    ensures -1 <= r < |s|
    ensures r >= 0 ==> s[r] == c && c !in s[..r]
    ensures r == -1 ==> c !in s
  {
    if s == [] then -1
    else if s[0] == c then 0
    else
      var k := IndexOf(s[1..], c);
      if k == -1 then -1
      else
        assert s[..k + 1] == [s[0]] + s[1..][..k];
        k + 1
  }

  /** `isValidEmail`, decided by one scan: split at the first `@`, then the
      part before it and the part after it are runs, and the part after it
      has a `.` neither first nor last. */
  predicate IsValidEmail(s: string) {
    var at := IndexOf(s, '@');
    at > 0 && IsRun(s[..at])
    && var d := s[at + 1..];
       IsRun(d) && |d| >= 3 && '.' in d[1..|d| - 1]
  }

  /** The language of the pattern, read off its three runs. */
  ghost predicate EmailShape(s: string) {
    exists a, b, c :: IsRun(a) && IsRun(b) && IsRun(c) && s == a + "@" + b + "." + c
  }

  /** The scan accepts exactly the strings the pattern describes. */
  lemma IsValidEmailShape(s: string)
    ensures IsValidEmail(s) <==> EmailShape(s)
  {
    if IsValidEmail(s) {
      ValidEmailHasShape(s);
    }
    if EmailShape(s) {
      var a, b, c :| IsRun(a) && IsRun(b) && IsRun(c) && s == a + "@" + b + "." + c;
      ShapeIsValidEmail(a, b, c);
    }
  }

  lemma ValidEmailHasShape(s: string)
    requires IsValidEmail(s)
    ensures EmailShape(s)
  {
    var at := IndexOf(s, '@');
    var d := s[at + 1..];
    var j :| 0 <= j < |d[1..|d| - 1]| && d[1..|d| - 1][j] == '.';
    var k := j + 1;
    assert d[k] == '.';
    var a, b, c := s[..at], d[..k], d[k + 1..];
    assert IsRun(b) by {
      forall i | 0 <= i < |b| ensures !IsJsSpace(b[i]) && b[i] != '@' { assert b[i] == d[i]; }
    }
    assert IsRun(c) by {
      forall i | 0 <= i < |c| ensures !IsJsSpace(c[i]) && c[i] != '@' { assert c[i] == d[k + 1 + i]; }
    }
    assert d == b + "." + c;
    assert s == a + "@" + b + "." + c;
  }

  lemma ShapeIsValidEmail(a: string, b: string, c: string)
    requires IsRun(a) && IsRun(b) && IsRun(c)
    ensures IsValidEmail(a + "@" + b + "." + c)
  {
    var s := a + "@" + b + "." + c;
    var at := IndexOf(s, '@');
    assert s[|a|] == '@';
    assert s[..|a|] == a;
    assert at == |a|;
    var d := s[at + 1..];
    assert d == b + "." + c;
    assert IsRun(d) by {
      forall i | 0 <= i < |d| ensures !IsJsSpace(d[i]) && d[i] != '@' {
        if i < |b| { assert d[i] == b[i]; }
        else if i > |b| { assert d[i] == c[i - |b| - 1]; }
      }
    }
    assert d[1..|d| - 1][|b| - 1] == '.';
  }

  // ---------------------------------------------------------------------
  // validateFileUpload
  // ---------------------------------------------------------------------

  /** What the browser reports of the chosen file: its size and its type. */
  datatype ClientFile = ClientFile(size: int, mimeType: string)

  datatype FileProblem = FileTooBig | FileTypeRefused

  function FileProblemMessage(p: FileProblem): string {
    match p
    case FileTooBig => "File size must be less than " + Decimal(MAX_FILE_SIZE / 1024 / 1024) + "MB"
    case FileTypeRefused => "Only JPEG, PNG, and WebP images are allowed"
  }

  /** The problems of a chosen file, size first; no file, no problems. */
  function FileProblems(file: Option<ClientFile>): seq<FileProblem> {
    if file.None? then []
    else
      (if file.value.size > MAX_FILE_SIZE then [FileTooBig] else [])
      + (if file.value.mimeType !in ALLOWED_IMAGE_TYPES then [FileTypeRefused] else [])
  }

  /** The rule checks of `validateFileUpload`, appending one problem per
      broken rule. */
  method ValidateFileUpload(file: Option<ClientFile>) returns (errors: seq<FileProblem>)
    ensures errors == FileProblems(file)
  {
    errors := [];
    if file.None? {
      return;
    }
    var f := file.value;
    if f.size > MAX_FILE_SIZE {
      errors := errors + [FileTooBig];
    }
    if f.mimeType !in ALLOWED_IMAGE_TYPES {
      errors := errors + [FileTypeRefused];
    }
  }

  /** The two rules are independent: each is reported exactly when broken,
      size before type, and nothing is reported when no file is chosen. The
      browser flags a file exactly as the server's size and type rules do
      when the type it reports is the type the server detects. */
  lemma FileProblemsSpec(file: Option<ClientFile>, server: UploadedFile)
    ensures file.None? ==> FileProblems(file) == []
    ensures file.Some? ==>
      && (FileTooBig in FileProblems(file) <==> file.value.size > MAX_FILE_SIZE)
      && (FileTypeRefused in FileProblems(file) <==> file.value.mimeType !in ALLOWED_IMAGE_TYPES)
      && (|FileProblems(file)| == 2 ==> FileProblems(file) == [FileTooBig, FileTypeRefused])
    ensures file == Some(ClientFile(server.size, server.sniffedMime)) && UploadPresent(Some(server)) ==>
      && (FileTooBig in FileProblems(file) <==> TooLarge in ImageUploadErrors(Some(server)))
      && (FileTypeRefused in FileProblems(file) <==> DisallowedType in ImageUploadErrors(Some(server)))
  {
    ImageUploadErrorsSpec(Some(server));
  }
}
