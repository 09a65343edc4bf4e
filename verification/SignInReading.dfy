/**
  Reading a sign-in message: each line gives back the field it was written from
  (ERC-4361, section "ABNF Message Format").
 */
module SignInReading {
  import opened Common
  import opened GoTime
  import opened SignInText

  // ---- lines ----------------------------------------------------------------------------------

  function SplitLines(s: string): (lines: seq<string>)
    ensures |lines| >= 1
  {
    if s == "" then [""]
    else
      var rest := SplitLines(s[1..]);
      if s[0] == '\n' then [""] + rest else [[s[0]] + rest[0]] + rest[1..]
  }

  lemma {:induction false} SplitOne(a: string)
    requires OneLine(a)
    ensures SplitLines(a) == [a]
  {
    if a != "" {
      SplitOne(a[1..]);
      assert [a[0]] + a[1..] == a;
      assert a[0] in a;
    }
  }

  lemma {:induction false} SplitFirst(a: string, x: string)
    requires OneLine(a)
    ensures SplitLines(a + "\n" + x) == [a] + SplitLines(x)
  {
    var s := a + "\n" + x;
    if a == "" {
      assert s[1..] == x;
    } else {
      SplitFirst(a[1..], x);
      assert s[1..] == a[1..] + "\n" + x;
      assert [a[0]] + a[1..] == a;
      assert a[0] in a;
    }
  }

  /** Splitting undoes joining. */
  lemma {:induction false} SplitJoined(lines: seq<string>)
    requires lines != [] && forall l <- lines :: OneLine(l)
    ensures SplitLines(JoinLines(lines)) == lines
  {
    assert lines[0] in lines;
    assert lines == [lines[0]] + lines[1..];
    if |lines| == 1 {
      SplitOne(lines[0]);
    } else {
      SplitFirst(lines[0], JoinLines(lines[1..]));
      SplitJoined(lines[1..]);
    }
  }

  // ---- numbers and times ----------------------------------------------------------------------

  predicate AllDigits(s: string) { s != "" && forall c <- s :: IsDigit(c) }

  function ReadNumber(s: string): Option<int> {
    if AllDigits(s) then Some(ValueOf(s))
    else if s != "" && s[0] == '-' && AllDigits(s[1..]) then Some(-ValueOf(s[1..]))
    else None
  }

  lemma DecimalReads(n: int)
    ensures ReadNumber(Decimal(n)) == Some(n)
  {
    DigitsRead(if n < 0 then -n else n);
    if n < 0 {
      assert Decimal(n)[0] in Decimal(n) && Decimal(n)[1..] == DigitsOf(-n);
    }
  }

  lemma YearReads(y: int)
    ensures ReadNumber(FormatYear(y)) == Some(y)
  {
    PaddedReads(if y < 0 then -y else y, 4);
    if y < 0 {
      assert FormatYear(y)[0] in FormatYear(y) && FormatYear(y)[1..] == Padded(-y, 4);
    }
  }

  lemma TwoDigitsRead(n: int)
    requires 0 <= n < 100
    ensures |TwoDigits(n)| == 2 && ReadNumber(TwoDigits(n)) == Some(n)
  {
    var s := TwoDigits(n);
    assert s[..1] == [Digit(n / 10)] && s[..1][..0] == [];
    assert ValueOf(s[..1]) == n / 10;
  }

  /** `YYYY-MM-DDTHH:MM:SSZ`, the year with as many digits as it has. */
  function ReadTime(s: string): Option<Time> {
    if |s| < 17 then None
    else
      var year, r := ReadNumber(s[..|s| - 16]), s[|s| - 16..];
      match (year, ReadNumber(r[1..3]), ReadNumber(r[4..6]), ReadNumber(r[7..9]), ReadNumber(r[10..12]), ReadNumber(r[13..15]))
      case (Some(y), Some(mo), Some(d), Some(h), Some(mi), Some(sec)) =>
        if r[0] == '-' == r[3] && r[6] == 'T' && r[9] == ':' == r[12] && r[15] == 'Z' && 1 <= mo <= 12
        then Some(Date(y, mo, d, h, mi, sec, 0))
        else None
      case _ => None
  }

  lemma Separators(t: Time)
    ensures var r := FormatRest(t);
            |r| == 16 && r[0] == '-' == r[3] && r[6] == 'T' && r[9] == ':' == r[12] && r[15] == 'Z'
  {
    hide Year, Month, DayOfMonth, Hour, Minute, Second;
    ClockFields(t);
  }

  /** The text of a time reads back as its whole second. */
  lemma TimeReads(t: Time)
    ensures ReadTime(FormatTime(t)) == Some(Truncate(t, SECOND))
  {
    hide FormatYear, FormatRest, Year, Month, DayOfMonth, Hour, Minute, Second, TwoDigits, ReadNumber, Date, IsLeap, MonthLength;
    var y, r, s := FormatYear(Year(t)), FormatRest(t), FormatTime(t);
    YearReads(Year(t));
    NotEmpty(Year(t));
    RestShape(t);
    Separators(t);
    ClockFields(t);
    DayInMonth(t);
    TwoDigitsRead(Month(t));
    TwoDigitsRead(DayOfMonth(t));
    TwoDigitsRead(Hour(t));
    TwoDigitsRead(Minute(t));
    TwoDigitsRead(Second(t));
    assert s[..|s| - 16] == y && s[|s| - 16..] == r;
    WholeSecond(t);
  }

  lemma NotEmpty(y: int)
    ensures FormatYear(y) != ""
  {
    PaddedReads(if y < 0 then -y else y, 4);
  }

  lemma DayInMonth(t: Time)
    ensures 0 <= DayOfMonth(t) < 100
  {
  }

  lemma WholeSecond(t: Time)
    ensures Date(Year(t), Month(t), DayOfMonth(t), Hour(t), Minute(t), Second(t), 0) == Truncate(t, SECOND)
  {
    hide Year, Month, DayOfMonth, Hour, Minute, Second;
    FieldsRoundTrip(t);
  }

  // ---- the message ----------------------------------------------------------------------------

  /** What follows the tag of a line. */
  function After(tag: string, line: string): Option<string> {
    if tag <= line then Some(line[|tag|..]) else None
  }

  function Before(line: string, ending: string): Option<string> {
    if |ending| <= |line| && line[|line| - |ending|..] == ending then Some(line[..|line| - |ending|]) else None
  }

  /** Reads the eleven lines. */
  function ReadMessage(text: string): Option<Challenge> {
    var l := SplitLines(text);
    if |l| != 11 || l[2] != "" || l[4] != "" then None
    else
      match (Before(l[0], " wants you to sign in with your Ethereum account:"), After("URI: ", l[5]), After("Version: ", l[6]),
             After("Nonce: ", l[8]), ReadChainId(l[7]), ReadTimes(l[9], l[10]))
      case (Some(domain), Some(uri), Some(version), Some(nonce), Some(chainId), Some((issued, expires))) =>
        Some(Challenge(domain := domain, address := l[1], statement := l[3], uri := uri, version := version, chainId := chainId,
                       nonce := nonce, issuedAt := issued, expirationTime := expires))
      case _ => None
  }

  function ReadChainId(line: string): Option<int> {
    match After("Chain ID: ", line)
    case None => None
    case Some(s) => ReadNumber(s)
  }

  function ReadTimes(issued: string, expires: string): Option<(Time, Time)> {
    match (After("Issued At: ", issued), After("Expiration Time: ", expires))
    case (Some(a), Some(b)) =>
      (match (ReadTime(a), ReadTime(b))
       case (Some(s), Some(t)) => Some((s, t))
       case _ => None)
    case _ => None
  }

  lemma Labelled(tag: string, s: string)
    ensures After(tag, tag + s) == Some(s)
  {
  }

  lemma Ended(s: string, ending: string)
    ensures Before(s + ending, ending) == Some(s)
  {
  }

  /** Main result: the text of a challenge that passes validation reads back as the challenge, its times to the second. */
  lemma MessageReadsBack(parseUri: string -> Option<Uri>, checksum: string -> string,
                         cfg: SiweConfig, c: Challenge, address: string, now: Time)
    requires RejectsNewlines(parseUri) && IsChecksum(checksum) && IsNormalized(checksum, address)
    requires ValidChallenge(cfg, parseUri, c, address, now)
    ensures ReadMessage(Message(c)) ==
      Some(c.(issuedAt := Truncate(c.issuedAt, SECOND), expirationTime := Truncate(c.expirationTime, SECOND)))
  {
    hide FormatTime, Decimal, JoinLines, SplitLines, IsNormalized, RejectsNewlines, IsChecksum, ReadTime, ReadNumber, After, Before,
      Truncate, ValidNonce;
    ValidIsOneLinePerField(cfg, parseUri, checksum, c, address, now);
    SplitJoined(MessageLines(c));
    Ended(c.domain, WANTS);
    Labelled("URI: ", c.uri);
    Labelled("Version: ", c.version);
    Labelled("Chain ID: ", Decimal(c.chainId));
    Labelled("Nonce: ", c.nonce);
    Labelled("Issued At: ", FormatTime(c.issuedAt));
    Labelled("Expiration Time: ", FormatTime(c.expirationTime));
    DecimalReads(c.chainId);
    TimeReads(c.issuedAt);
    TimeReads(c.expirationTime);
  }

  const LEAP_DAY := Date(2024, 2, 29, 13, 5, 9, 0)

  lemma LeapDayFields()
    ensures Year(LEAP_DAY) == 2024 && Month(LEAP_DAY) == 2 && DayOfMonth(LEAP_DAY) == 29
    ensures Hour(LEAP_DAY) == 13 && Minute(LEAP_DAY) == 5 && Second(LEAP_DAY) == 9
  {
    hide Year, Month, DayOfMonth;
    assert DateDay(2024, 2, 29) == 738_944 == DayNumber(LEAP_DAY);
    FieldsUnique(LEAP_DAY, 2024, 2, 29);
  }

  /** One text of a time in full. */
  lemma LeapDayText()
    ensures FormatTime(Date(2024, 2, 29, 13, 5, 9, 0)) == "2024-02-29T13:05:09Z"
  {
    hide Year, Month, DayOfMonth, Hour, Minute, Second;
    LeapDayFields();
    YearText();
    assert TwoDigits(2) == "02" && TwoDigits(29) == "29" && TwoDigits(13) == "13" && TwoDigits(5) == "05" && TwoDigits(9) == "09";
    assert FormatRest(LEAP_DAY) == "-" + "02" + "-" + "29" + "T" + "13" + ":" + "05" + ":" + "09" + "Z";
  }

  lemma YearText()
    ensures FormatYear(2024) == "2024"
  {
    assert DigitsOf(2) == "2";
    assert DigitsOf(20) == "20";
    assert DigitsOf(202) == "202";
  }
}
