/**
  The sign-in challenge and its text form (ERC-4361, section "ABNF Message Format").
 */
module SignInText {
  import opened Common
  import opened GoTime

  datatype Challenge = Challenge(
    domain: string, address: string, statement: string, uri: string, version: string, chainId: int,
    nonce: string, issuedAt: Time, expirationTime: Time)

  // ---- decimal numbers ------------------------------------------------------------------------

  function Digit(d: int): char
    requires 0 <= d < 10
  {
    '0' + d as char
  }

  predicate IsDigit(c: char) { '0' <= c <= '9' }

  function DigitsOf(n: nat): (s: string)
    ensures |s| >= 1 && forall c <- s :: IsDigit(c)
  {
    if n < 10 then [Digit(n)] else DigitsOf(n / 10) + [Digit(n % 10)]
  }

  /** `%d`. */
  function Decimal(n: int): string {
    if n < 0 then "-" + DigitsOf(-n) else DigitsOf(n)
  }

  function ValueOf(s: string): int
    requires forall c <- s :: IsDigit(c)
  {
    if s == [] then 0
    else 10 * ValueOf(s[..|s| - 1]) + (s[|s| - 1] as int - '0' as int)
  }

  lemma {:induction false} DigitsRead(n: nat)
    ensures ValueOf(DigitsOf(n)) == n
  {
    var s := DigitsOf(n);
    if n < 10 {
      assert s[..0] == [];
    } else {
      DigitsRead(n / 10);
      assert s[..|s| - 1] == DigitsOf(n / 10);
    }
  }

  lemma DecimalInjective(m: int, n: int)
    requires Decimal(m) == Decimal(n)
    ensures m == n
  {
    DigitsRead(if m < 0 then -m else m);
    DigitsRead(if n < 0 then -n else n);
    assert m < 0 ==> Decimal(m)[0] == '-' && Decimal(m)[1..] == DigitsOf(-m);
    assert n < 0 ==> Decimal(n)[0] == '-' && Decimal(n)[1..] == DigitsOf(-n);
    assert m >= 0 ==> Decimal(m)[0] in Decimal(m);
    assert n >= 0 ==> Decimal(n)[0] in Decimal(n);
  }

  // ---- times ----------------------------------------------------------------------------------

  function Zeros(n: nat): (s: string)
    ensures |s| == n && forall c <- s :: c == '0'
  {
    seq(n, i => '0')
  }

  /** Zero-padded on the left to at least `width` digits. */
  function Padded(n: nat, width: nat): string {
    var s := DigitsOf(n);
    if |s| < width then Zeros(width - |s|) + s else s
  }

  function FormatYear(year: int): string {
    if year < 0 then "-" + Padded(-year, 4) else Padded(year, 4)
  }

  function TwoDigits(n: int): string
    requires 0 <= n < 100
  {
    [Digit(n / 10), Digit(n % 10)]
  }

  function FormatRest(t: Time): string {
    ClockFields(t);
    "-" + TwoDigits(Month(t)) + "-" + TwoDigits(DayOfMonth(t)) + "T" + TwoDigits(Hour(t)) + ":"
    + TwoDigits(Minute(t)) + ":" + TwoDigits(Second(t)) + "Z"
  }

  /** `t.UTC().Format(time.RFC3339)`: whole seconds. */
  function FormatTime(t: Time): string {
    FormatYear(Year(t)) + FormatRest(t)
  }

  lemma {:induction false} LeadingZeros(n: nat, s: string)
    requires forall c <- s :: IsDigit(c)
    ensures forall c <- Zeros(n) + s :: IsDigit(c)
    ensures ValueOf(Zeros(n) + s) == ValueOf(s)
    decreases |s|, n
  {
    var z := Zeros(n) + s;
    if s != [] {
      LeadingZeros(n, s[..|s| - 1]);
      assert z[..|z| - 1] == Zeros(n) + s[..|s| - 1];
    } else if n > 0 {
      LeadingZeros(n - 1, s);
      assert z[..|z| - 1] == Zeros(n - 1) + s;
    }
  }

  lemma PaddedReads(n: nat, width: nat)
    ensures |Padded(n, width)| >= 1
    ensures forall c <- Padded(n, width) :: IsDigit(c)
    ensures ValueOf(Padded(n, width)) == n
  {
    DigitsRead(n);
    var s := DigitsOf(n);
    if |s| < width {
      LeadingZeros(width - |s|, s);
    }
  }

  lemma YearInjective(m: int, n: int)
    requires FormatYear(m) == FormatYear(n)
    ensures m == n
  {
    PaddedReads(if m < 0 then -m else m, 4);
    PaddedReads(if n < 0 then -n else n, 4);
    assert m < 0 ==> FormatYear(m)[0] == '-' && FormatYear(m)[1..] == Padded(-m, 4);
    assert n < 0 ==> FormatYear(n)[0] == '-' && FormatYear(n)[1..] == Padded(-n, 4);
    assert m >= 0 ==> FormatYear(m)[0] in FormatYear(m);
    assert n >= 0 ==> FormatYear(n)[0] in FormatYear(n);
  }

  lemma TwoDigitsInjective(m: int, n: int)
    requires 0 <= m < 100 && 0 <= n < 100
    requires Digit(m / 10) == Digit(n / 10) && Digit(m % 10) == Digit(n % 10)
    ensures m == n
  {
  }

  lemma RestShape(t: Time)
    ensures var r := FormatRest(t);
            && |r| == 16
            && r[1..3] == TwoDigits(Month(t)) && r[4..6] == TwoDigits(DayOfMonth(t)) && r[7..9] == TwoDigits(Hour(t))
            && r[10..12] == TwoDigits(Minute(t)) && r[13..15] == TwoDigits(Second(t))
  {
    ClockFields(t);
  }

  lemma SameTwoDigits(m: int, n: int)
    requires 0 <= m < 100 && 0 <= n < 100 && TwoDigits(m) == TwoDigits(n)
    ensures m == n
  {
    assert TwoDigits(m)[0] == TwoDigits(n)[0] && TwoDigits(m)[1] == TwoDigits(n)[1];
    TwoDigitsInjective(m, n);
  }

  /** The fields down to the second are determined by the whole seconds. */
  lemma SecondsGiveFields(s: Time, t: Time)
    requires s / SECOND == t / SECOND
    ensures DayNumber(s) == DayNumber(t) && Hour(s) == Hour(t) && Minute(s) == Minute(t) && Second(s) == Second(t)
  {
    hide DayNumber, Hour, Minute, Second;
    ClockFields(s);
    ClockFields(t);
  }

  lemma SameSecondSameText(s: Time, t: Time)
    requires s / SECOND == t / SECOND
    ensures FormatTime(s) == FormatTime(t)
  {
    hide FormatYear, TwoDigits, YearOfDay, MonthOfYearDay, IsLeap, DaysBeforeMonth, DaysBeforeYear, DayNumber, Hour, Minute, Second;
    SecondsGiveFields(s, t);
  }

  /** Equal texts are exactly equal times up to the second. */
  lemma FormatTimeInjective(s: Time, t: Time)
    ensures FormatTime(s) == FormatTime(t) <==> ToUnix(s) == ToUnix(t)
  {
    hide FormatTime;
    if FormatTime(s) == FormatTime(t) {
      SameTextSameSecond(s, t);
    }
    if s / SECOND == t / SECOND {
      SameSecondSameText(s, t);
    }
  }

  lemma SameTextSameSecond(s: Time, t: Time)
    requires FormatTime(s) == FormatTime(t)
    ensures ToUnix(s) == ToUnix(t)
  {
    hide FormatRest, FormatYear, Year, Month, DayOfMonth, Hour, Minute, Second, Date, TwoDigits;
    RestShape(s);
    RestShape(t);
    var a, b := FormatYear(Year(s)), FormatYear(Year(t));
    var x, y := FormatRest(s), FormatRest(t);
    SameSuffix(a, x, b, y);
    YearInjective(Year(s), Year(t));
    ClockFields(s);
    ClockFields(t);
    SameTwoDigits(Month(s), Month(t));
    SameTwoDigits(DayOfMonth(s), DayOfMonth(t));
    SameTwoDigits(Hour(s), Hour(t));
    SameTwoDigits(Minute(s), Minute(t));
    SameTwoDigits(Second(s), Second(t));
    FieldsRoundTrip(s);
    FieldsRoundTrip(t);
    assert s - s % SECOND == t - t % SECOND;
  }

  lemma SameSuffix(a: string, x: string, b: string, y: string)
    requires a + x == b + y && |x| == |y|
    ensures a == b && x == y
  {
    assert |a| == |b|;
    assert a == (a + x)[..|a|] && b == (b + y)[..|b|];
    assert x == (a + x)[|a|..] && y == (b + y)[|b|..];
  }

  // ---- lines ----------------------------------------------------------------------------------

  predicate OneLine(s: string) { '\n' !in s }

  function JoinLines(lines: seq<string>): string
    requires lines != []
  {
    if |lines| == 1 then lines[0] else lines[0] + "\n" + JoinLines(lines[1..])
  }

  /** Text up to the first newline. */
  lemma FirstLine(a: string, x: string, b: string, y: string)
    requires OneLine(a) && OneLine(b) && a + "\n" + x == b + "\n" + y
    ensures a == b && x == y
  {
    var s := a + "\n" + x;
    assert s[|a|] == '\n' && s[|b|] == '\n';
    forall i | 0 <= i < |a|
      ensures s[i] != '\n'
    {
      assert s[i] == a[i] && a[i] in a;
    }
    forall i | 0 <= i < |b|
      ensures s[i] != '\n'
    {
      assert s[i] == b[i] && b[i] in b;
    }
    assert |a| == |b|;
    assert a == s[..|a|] && b == s[..|b|];
    assert x == s[|a| + 1..] && y == s[|b| + 1..];
  }

  lemma {:induction false} JoinLinesInjective(a: seq<string>, b: seq<string>)
    requires |a| == |b| >= 1
    requires (forall l <- a :: OneLine(l)) && (forall l <- b :: OneLine(l))
    requires JoinLines(a) == JoinLines(b)
    ensures a == b
  {
    assert a == [a[0]] + a[1..] && b == [b[0]] + b[1..];
    if |a| > 1 {
      assert a[0] in a && b[0] in b;
      FirstLine(a[0], JoinLines(a[1..]), b[0], JoinLines(b[1..]));
      JoinLinesInjective(a[1..], b[1..]);
    }
  }

  // ---- the message ----------------------------------------------------------------------------

  const WANTS := " wants you to sign in with your Ethereum account:"

  function MessageLines(c: Challenge): (lines: seq<string>)
    ensures |lines| == 11
  {
    [c.domain + WANTS, c.address, "", c.statement, "", "URI: " + c.uri, "Version: " + c.version,
     "Chain ID: " + Decimal(c.chainId), "Nonce: " + c.nonce, "Issued At: " + FormatTime(c.issuedAt),
     "Expiration Time: " + FormatTime(c.expirationTime)]
  }

  /** `SIWEChallenge.Message`. */
  function Message(c: Challenge): string {
    JoinLines(MessageLines(c))
  }

  // ---- validation -----------------------------------------------------------------------------

  datatype SiweConfig = SiweConfig(domain: string, uri: string, chainId: int)

  /** Scheme and host of a parsed URI. */
  datatype Uri = Uri(scheme: string, host: string)

  /** `url.ParseRequestURI` rejects control characters, newline among them. */
  ghost predicate RejectsNewlines(parseUri: string -> Option<Uri>) {
    forall u :: parseUri(u).Some? ==> OneLine(u)
  }

  predicate ValidNonce(nonce: string) {
    |nonce| >= 8 && forall c <- nonce :: 'a' <= c <= 'z' || 'A' <= c <= 'Z' || '0' <= c <= '9'
  }

  /** `validateChallenge` at time `now`. */
  predicate ValidChallenge(cfg: SiweConfig, parseUri: string -> Option<Uri>, c: Challenge, address: string, now: Time) {
    && c.domain == cfg.domain && c.uri == cfg.uri && c.chainId == cfg.chainId && c.version == "1" && c.address == address
    && c.statement != "" && '\n' !in c.statement && ValidNonce(c.nonce)
    && parseUri(c.uri).Some? && parseUri(c.uri).value.scheme != "" && parseUri(c.uri).value.host != ""
    && ' ' !in c.domain && '\t' !in c.domain && '\n' !in c.domain
    && !(c.issuedAt > now + MINUTE) && c.expirationTime > c.issuedAt && now < c.expirationTime
  }

  // ---- addresses ------------------------------------------------------------------------------

  predicate IsHexChar(c: char) {
    '0' <= c <= '9' || 'a' <= c <= 'f' || 'A' <= c <= 'F'
  }

  function Strip0x(s: string): string {
    if |s| >= 2 && s[0] == '0' && (s[1] == 'x' || s[1] == 'X') then s[2..] else s
  }

  predicate IsHexAddress(s: string) {
    |Strip0x(s)| == 40 && forall c <- Strip0x(s) :: IsHexChar(c)
  }

  /** The checksum casing of an address only changes the case of letters. */
  ghost predicate IsChecksum(checksum: string -> string) {
    forall s :: Lower(checksum(s)) == s <== Lower(s) == s
  }

  /** `normalizeAddress`. */
  function NormalizeAddress(checksum: string -> string, s: string): Option<string> {
    if IsHexAddress(s) then Some("0x" + checksum(Lower(Strip0x(s)))) else None
  }

  ghost predicate IsNormalized(checksum: string -> string, address: string) {
    exists s :: NormalizeAddress(checksum, s) == Some(address)
  }

  predicate IsHexBody(body: string) {
    |body| == 40 && forall c <- body :: '0' <= c <= '9' || 'a' <= c <= 'f' || 'A' <= c <= 'F'
  }

  predicate Spells(s: string, body: string) {
    IsHexBody(body) && (s == body || s == "0x" + body || s == "0X" + body)
  }

  /** Exactly 40 hexadecimal digits, bare or after 0x or 0X, are an address; it is written with 0x and its own casing. */
  lemma NormalizeExactly(checksum: string -> string, s: string)
    ensures NormalizeAddress(checksum, s).Some? <==> exists body :: Spells(s, body)
    ensures forall body | Spells(s, body) :: NormalizeAddress(checksum, s) == Some("0x" + checksum(Lower(body)))
  {
    if IsHexAddress(s) {
      var body := Strip0x(s);
      assert s == body || s == s[..2] + body;
      if s != body {
        assert s[..2] == [s[0], s[1]];
      }
      assert Spells(s, body);
    }
    forall body | Spells(s, body)
      ensures Strip0x(s) == body
    {
      assert body[1] in body;
      if s != body {
        assert s[2..] == body;
      }
    }
  }

  /** Two spellings are one address exactly when their digits agree up to case. */
  lemma SameAddressExactly(checksum: string -> string, s: string, t: string, bodyS: string, bodyT: string)
    requires IsChecksum(checksum) && Spells(s, bodyS) && Spells(t, bodyT)
    ensures NormalizeAddress(checksum, s) == NormalizeAddress(checksum, t) <==> Lower(bodyS) == Lower(bodyT)
    ensures |NormalizeAddress(checksum, s).GetOr("")| == 42
  {
    hide NormalizeAddress;
    NormalizeExactly(checksum, s);
    NormalizeExactly(checksum, t);
    LowerIdempotent(bodyS);
    LowerIdempotent(bodyT);
    var a, b := checksum(Lower(bodyS)), checksum(Lower(bodyT));
    assert Lower(a) == Lower(bodyS) && Lower(b) == Lower(bodyT);
    assert ("0x" + a)[2..] == a && ("0x" + b)[2..] == b;
  }

  lemma LowerIdempotent(s: string)
    ensures Lower(Lower(s)) == Lower(s)
  {
  }

  lemma NormalizedIsOneLine(checksum: string -> string, s: string)
    requires IsChecksum(checksum) && IsHexAddress(s)
    ensures OneLine(NormalizeAddress(checksum, s).value)
  {
    var body := Strip0x(s);
    var cased := checksum(Lower(body));
    LowerIdempotent(body);
    assert Lower(cased) == Lower(body);
    forall i | 0 <= i < |cased|
      ensures cased[i] != '\n'
    {
      assert body[i] in body;
      assert LowerChar(cased[i]) == Lower(cased)[i] == Lower(body)[i] == LowerChar(body[i]);
    }
  }

  // ---- the text is unambiguous ----------------------------------------------------------------

  lemma DecimalOneLine(n: int)
    ensures OneLine(Decimal(n))
  {
    if n < 0 {
      assert forall c <- Decimal(n) :: c == '-' || c in DigitsOf(-n);
    }
  }

  lemma TimeOneLine(t: Time)
    ensures OneLine(FormatTime(t))
  {
    hide Year, Month, DayOfMonth, Hour, Minute, Second;
    var y := FormatYear(Year(t));
    PaddedReads(if Year(t) < 0 then -Year(t) else Year(t), 4);
    assert OneLine(y);
    RestOneLine(t);
  }

  lemma RestOneLine(t: Time)
    ensures OneLine(FormatRest(t))
  {
    hide Year, Month, DayOfMonth, Hour, Minute, Second;
    ClockFields(t);
    forall n | 0 <= n < 100
      ensures OneLine(TwoDigits(n))
    {
    }
  }

  lemma ValidIsOneLinePerField(cfg: SiweConfig, parseUri: string -> Option<Uri>, checksum: string -> string,
                               c: Challenge, address: string, now: Time)
    requires RejectsNewlines(parseUri) && IsChecksum(checksum) && IsNormalized(checksum, address)
    requires ValidChallenge(cfg, parseUri, c, address, now)
    ensures forall l <- MessageLines(c) :: OneLine(l)
  {
    hide FormatTime, Decimal;
    var s :| NormalizeAddress(checksum, s) == Some(address);
    NormalizedIsOneLine(checksum, s);
    DecimalOneLine(c.chainId);
    TimeOneLine(c.issuedAt);
    TimeOneLine(c.expirationTime);
    LabelsOneLine();
    NonceOneLine(c.nonce);
  }

  lemma NonceOneLine(nonce: string)
    requires ValidNonce(nonce)
    ensures OneLine(nonce)
  {
  }

  lemma LabelsOneLine()
    ensures OneLine(WANTS) && OneLine("URI: ") && OneLine("Version: ") && OneLine("Chain ID: ") && OneLine("Nonce: ")
    ensures OneLine("Issued At: ") && OneLine("Expiration Time: ") && OneLine("") && OneLine("1")
  {
    assert OneLine(" wants you to ") && OneLine("sign in with your ");
    assert OneLine("Ethereum account:");
  }

  lemma SamePrefix(p: string, a: string, b: string)
    requires p + a == p + b
    ensures a == b
  {
    assert a == (p + a)[|p|..] && b == (p + b)[|p|..];
  }

  /** All fields agree, times up to the second. */
  predicate SameToTheSecond(c1: Challenge, c2: Challenge) {
    && c2.(issuedAt := c1.issuedAt, expirationTime := c1.expirationTime) == c1
    && ToUnix(c1.issuedAt) == ToUnix(c2.issuedAt)
    && ToUnix(c1.expirationTime) == ToUnix(c2.expirationTime)
  }

  /**
    Main result: two challenges that pass validation, possibly for different services, addresses and at
    different times, have the same message exactly when they agree on every field, times up to the second.
   */
  lemma MessageIsUnambiguous(parseUri: string -> Option<Uri>, checksum: string -> string,
                             cfg1: SiweConfig, c1: Challenge, address1: string, now1: Time,
                             cfg2: SiweConfig, c2: Challenge, address2: string, now2: Time)
    requires RejectsNewlines(parseUri) && IsChecksum(checksum)
    requires IsNormalized(checksum, address1) && IsNormalized(checksum, address2)
    requires ValidChallenge(cfg1, parseUri, c1, address1, now1)
    requires ValidChallenge(cfg2, parseUri, c2, address2, now2)
    ensures Message(c1) == Message(c2) <==> SameToTheSecond(c1, c2)
  {
    hide FormatTime, Decimal, JoinLines, IsNormalized, RejectsNewlines, IsChecksum, ToUnix;
    ValidIsOneLinePerField(cfg1, parseUri, checksum, c1, address1, now1);
    ValidIsOneLinePerField(cfg2, parseUri, checksum, c2, address2, now2);
    FormatTimeInjective(c1.issuedAt, c2.issuedAt);
    FormatTimeInjective(c1.expirationTime, c2.expirationTime);
    if Message(c1) == Message(c2) {
      JoinLinesInjective(MessageLines(c1), MessageLines(c2));
      SameLinesSameFields(c1, c2);
    }
  }

  lemma SameLinesSameFields(c1: Challenge, c2: Challenge)
    requires MessageLines(c1) == MessageLines(c2) && c1.version == c2.version
    ensures SameToTheSecond(c1, c2)
  {
    hide FormatTime, Decimal, ToUnix;
    var a, b := MessageLines(c1), MessageLines(c2);
    assert a[0] == b[0] && a[1] == b[1] && a[3] == b[3] && a[5] == b[5] && a[7] == b[7] && a[8] == b[8];
    assert a[9] == b[9] && a[10] == b[10];
    SameSuffix(c1.domain, WANTS, c2.domain, WANTS);
    SamePrefix("URI: ", c1.uri, c2.uri);
    SamePrefix("Chain ID: ", Decimal(c1.chainId), Decimal(c2.chainId));
    DecimalInjective(c1.chainId, c2.chainId);
    SamePrefix("Nonce: ", c1.nonce, c2.nonce);
    SamePrefix("Issued At: ", FormatTime(c1.issuedAt), FormatTime(c2.issuedAt));
    FormatTimeInjective(c1.issuedAt, c2.issuedAt);
    SamePrefix("Expiration Time: ", FormatTime(c1.expirationTime), FormatTime(c2.expirationTime));
    FormatTimeInjective(c1.expirationTime, c2.expirationTime);
  }
}
