/** The PHP built-ins the request handlers rely on, stated over strings of
    characters: `empty()` and truthiness of strings, `trim`, `strtolower`,
    `bin2hex`, `sprintf('%d')`, `pathinfo(..., PATHINFO_EXTENSION)` and
    `ceil` of an integer quotient. */
module PhpBuiltins {

  datatype Option<+T> = None | Some(value: T)

  /** A byte as produced by `random_bytes`. */
  type Byte = b: int | 0 <= b < 256

  // ---------------------------------------------------------------------
  // empty() and truthiness
  // ---------------------------------------------------------------------

  /** PHP's `empty($s)` on a string: true for "" and for "0". */
  predicate IsEmpty(s: string) {
    s == "" || s == "0"
  }

  /** PHP's truthiness of a string, as in `if ($search)`. */
  predicate Truthy(s: string) {
    !IsEmpty(s)
  }

  /** PHP's truthiness of a value that may be NULL (a nullable column). */
  predicate TruthyOpt(s: Option<string>) {
    s.Some? && Truthy(s.value)
  }

  // ---------------------------------------------------------------------
  // trim()
  // ---------------------------------------------------------------------

  /** The characters `trim()` strips by default: space, tab, LF, CR, NUL, VT. */
  predicate IsTrimChar(c: char) {
    c == ' ' || c == '\t' || c == '\n' || c == '\r' || c == '\U{0}' || c == '\U{B}'
  }

  /** `ltrim`: drops the leading run of trim characters. */
  function TrimLeft(s: string): (r: string)
    ensures |r| <= |s| && r == s[|s| - |r|..]
    ensures r != [] ==> !IsTrimChar(r[0])
    ensures forall i :: 0 <= i < |s| - |r| ==> IsTrimChar(s[i])
  {
    if s != [] && IsTrimChar(s[0]) then
      var r := TrimLeft(s[1..]);
      assert s[1..][|s| - 1 - |r|..] == s[|s| - |r|..];
      r
    else s
  }

  /** `rtrim`: drops the trailing run of trim characters. */
  function TrimRight(s: string): (r: string)
    ensures |r| <= |s| && r == s[..|r|]
    ensures r != [] ==> !IsTrimChar(r[|r| - 1])
    ensures forall i :: |r| <= i < |s| ==> IsTrimChar(s[i])
  {
    if s != [] && IsTrimChar(s[|s| - 1]) then
      var r := TrimRight(s[..|s| - 1]);
      assert s[..|s| - 1][..|r|] == s[..|r|];
      r
    else s
  }

  /** `trim`. */
  function Trim(s: string): string {
    TrimRight(TrimLeft(s))
  }

  /** A string is trimmed when it neither starts nor ends with a trim character. */
  predicate IsTrimmed(s: string) {
    s != [] ==> !IsTrimChar(s[0]) && !IsTrimChar(s[|s| - 1])
  }

  /** What `trim` returns neither starts nor ends with a trim character. */
  lemma TrimIsTrimmed(s: string)
    ensures IsTrimmed(Trim(s))
  {
    var l := TrimLeft(s);
    var r := TrimRight(l);
    if r != [] {
      assert r[0] == l[0];
    }
  }

  /** A trimmed string is left alone by `trim`. */
  lemma TrimOfTrimmed(s: string)
    requires IsTrimmed(s)
    ensures Trim(s) == s
  {
  }

  // ---------------------------------------------------------------------
  // strtolower()
  // ---------------------------------------------------------------------

  /** `strtolower` on one character: ASCII letters only (PHP 8 is locale-insensitive). */
  function LowerChar(c: char): char {
    if 'A' <= c <= 'Z' then (c as int + 32) as char else c
  }

  function Lower(s: string): (r: string)
    ensures |r| == |s|
    ensures forall i :: 0 <= i < |s| ==> r[i] == LowerChar(s[i])
  {
    if s == [] then [] else [LowerChar(s[0])] + Lower(s[1..])
  }

  /** `strtolower` leaves no ASCII capital behind and is idempotent. */
  lemma LowerIsLower(s: string)
    ensures forall i :: 0 <= i < |s| ==> !('A' <= Lower(s)[i] <= 'Z')
    ensures Lower(Lower(s)) == Lower(s)
  {
  }

  // ---------------------------------------------------------------------
  // bin2hex() and its inverse hex2bin()
  // ---------------------------------------------------------------------

  predicate IsLowerHexDigit(c: char) {
    '0' <= c <= '9' || 'a' <= c <= 'f'
  }

  /** The lower-case hex digit of a value below 16. */
  function HexDigit(v: int): (c: char)
    requires 0 <= v < 16
    ensures IsLowerHexDigit(c)
  {
    if v < 10 then ('0' as int + v) as char else ('a' as int + v - 10) as char
  }

  function HexDigitValue(c: char): (v: int)
    requires IsLowerHexDigit(c)
    ensures 0 <= v < 16 && HexDigit(v) == c
  {
    if '0' <= c <= '9' then c as int - '0' as int else c as int - 'a' as int + 10
  }

  /** `bin2hex`: two lower-case hex digits per byte, high nibble first. */
  function Bin2Hex(bytes: seq<Byte>): (r: string)
    ensures |r| == 2 * |bytes|
    ensures forall i :: 0 <= i < |r| ==> IsLowerHexDigit(r[i])
  {
    if bytes == [] then ""
    else [HexDigit(bytes[0] / 16), HexDigit(bytes[0] % 16)] + Bin2Hex(bytes[1..])
  }

  /** `hex2bin` on lower-case input of even length. */
  function Hex2Bin(s: string): (r: seq<Byte>)
    requires |s| % 2 == 0
    requires forall i :: 0 <= i < |s| ==> IsLowerHexDigit(s[i])
    ensures |r| * 2 == |s|
  {
    if s == [] then []
    else [HexDigitValue(s[0]) * 16 + HexDigitValue(s[1])] + Hex2Bin(s[2..])
  }

  /** `hex2bin(bin2hex(b)) == b`: the hex encoding of random bytes loses nothing. */
  lemma {:induction false} Hex2BinOfBin2Hex(bytes: seq<Byte>)
    ensures Hex2Bin(Bin2Hex(bytes)) == bytes
  {
    if bytes != [] {
      var b := bytes[0];
      var h := Bin2Hex(bytes);
      assert h == [HexDigit(b / 16), HexDigit(b % 16)] + Bin2Hex(bytes[1..]);
      assert h[2..] == Bin2Hex(bytes[1..]);
      Hex2BinOfBin2Hex(bytes[1..]);
      assert HexDigitValue(h[0]) == b / 16;
      assert HexDigitValue(h[1]) == b % 16;
      assert (b / 16) * 16 + b % 16 == b;
    }
  }

  // ---------------------------------------------------------------------
  // Decimal rendering, as sprintf('%d') / date('Y') produce it
  // ---------------------------------------------------------------------

  predicate IsDigit(c: char) {
    '0' <= c <= '9'
  }

  function Pow10(k: nat): (p: nat)
    ensures p >= 1
  {
    if k == 0 then 1 else 10 * Pow10(k - 1)
  }

  /** The decimal digit of a value below 10. */
  function DigitChar(d: nat): (c: char)
    requires d < 10
    ensures IsDigit(c)
  {
    ('0' as int + d) as char
  }

  /** The decimal digits of `n`, with no leading zero (and "0" for zero). */
  function Decimal(n: nat): (r: string)
    ensures |r| >= 1
    ensures forall i :: 0 <= i < |r| ==> IsDigit(r[i])
  {
    if n < 10 then [DigitChar(n)]
    else Decimal(n / 10) + [DigitChar(n % 10)]
  }

  function DigitValue(c: char): (d: nat)
    requires IsDigit(c)
    ensures d < 10 && DigitChar(d) == c
  {
    c as int - '0' as int
  }

  /** Reads a run of decimal digits back into a number. */
  function ParseDecimal(s: string): nat
    requires forall i :: 0 <= i < |s| ==> IsDigit(s[i])
  {
    if s == [] then 0
    else 10 * ParseDecimal(s[..|s| - 1]) + DigitValue(s[|s| - 1])
  }

  /** A number with `k` significant digits renders as exactly `k` characters,
      and those characters read back as the number. */
  lemma {:induction false} DecimalSpec(n: nat, k: nat)
    requires k >= 1 && Pow10(k - 1) <= n < Pow10(k)
    ensures |Decimal(n)| == k
    ensures ParseDecimal(Decimal(n)) == n
  {
    if n >= 10 {
      assert k >= 2 by {
        if k == 1 { assert false; }
      }
      var p := Pow10(k - 2);
      assert Pow10(k - 1) == 10 * p;
      DivTenBounds(n, p, Pow10(k - 1));
      DecimalSpec(n / 10, k - 1);
      var d := Decimal(n);
      assert d[..|d| - 1] == Decimal(n / 10);
      assert DigitValue(d[|d| - 1]) == n % 10;
    } else {
      assert k == 1 by {
        if k >= 2 { assert false; }
      }
    }
  }

  lemma DivTenBounds(n: nat, p: nat, q: nat)
    requires 10 * p <= n < 10 * q
    ensures p <= n / 10 < q
  {
  }

  // ---------------------------------------------------------------------
  // Character classes of the password rules ([a-z], [A-Z], \d, [!@#$%^&*])
  // ---------------------------------------------------------------------

  predicate HasLower(s: string) {
    exists i :: 0 <= i < |s| && 'a' <= s[i] <= 'z'
  }

  predicate HasUpper(s: string) {
    exists i :: 0 <= i < |s| && 'A' <= s[i] <= 'Z'
  }

  predicate HasDigit(s: string) {
    exists i :: 0 <= i < |s| && IsDigit(s[i])
  }

  predicate IsSpecialSymbol(c: char) {
    c == '!' || c == '@' || c == '#' || c == '$' || c == '%' || c == '^' || c == '&' || c == '*'
  }

  predicate HasSpecialSymbol(s: string) {
    exists i :: 0 <= i < |s| && IsSpecialSymbol(s[i])
  }

  // ---------------------------------------------------------------------
  // pathinfo($name, PATHINFO_EXTENSION)
  // ---------------------------------------------------------------------

  /** The position of the last '.', or -1 when there is none. */
  function LastDot(name: string): (r: int)
    ensures -1 <= r < |name|
    ensures r >= 0 ==> name[r] == '.' && '.' !in name[r + 1..]
    ensures r == -1 ==> '.' !in name
  {
    if name == [] then -1
    else if name[|name| - 1] == '.' then |name| - 1
    else
      var r := LastDot(name[..|name| - 1]);
      assert r >= 0 ==> name[r + 1..] == name[..|name| - 1][r + 1..] + [name[|name| - 1]];
      r
  }

  /** The text after the last '.', or "" when there is none (PHP returns no
      extension then, which the callers turn into ""). */
  function Extension(name: string): (ext: string)
    ensures '.' !in ext
    ensures '.' !in name ==> ext == ""
    ensures '.' in name ==> |ext| < |name| && name[|name| - |ext| - 1..] == "." + ext
  {
    var r := LastDot(name);
    if r == -1 then ""
    else
      assert name[r..] == [name[r]] + name[r + 1..];
      name[r + 1..]
  }

  // ---------------------------------------------------------------------
  // ceil($total / $perPage)
  // ---------------------------------------------------------------------

  /** `ceil(a / b)` for a non-negative count and a positive page size. */
  function CeilDiv(a: nat, b: nat): (r: nat)
    requires b > 0
    ensures r * b >= a
    ensures r == 0 || (r - 1) * b < a
  {
    if a == 0 then 0 else 1 + CeilDiv(if a <= b then 0 else a - b, b)
  }
}
