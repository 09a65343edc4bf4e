/**
  Paging back through the candles of a token: each page returns a cursor, the open time of its earliest
  candle as text, and the next request asks for candles strictly before it.
 */
module KlinePages {
  import opened Common
  import opened GoTime
  import opened Intervals
  import opened ChainEvents
  import opened SignInText
  import opened RollUp

  // ---- the cursor text ------------------------------------------------------------------------

  predicate DigitsAt(s: string, from: nat, to: nat)
    requires from <= to <= |s|
  {
    forall c <- s[from..to] :: IsDigit(c)
  }

  /** The hour may have one digit or two. */
  function HourEnd(s: string): nat
    requires |s| >= 13
  {
    if IsDigit(s[12]) then 13 else 12
  }

  /** `YYYY-MM-DDTHH:MM:SS` at the start of the text. */
  predicate HasDateTime(s: string) {
    && |s| >= 18
    && DigitsAt(s, 0, 4) && s[4] == '-' && DigitsAt(s, 5, 7) && s[7] == '-' && DigitsAt(s, 8, 10) && s[10] == 'T'
    && var e := HourEnd(s);
    && |s| >= e + 6
    && DigitsAt(s, 11, e) && s[e] == ':' && DigitsAt(s, e + 1, e + 3) && s[e + 3] == ':' && DigitsAt(s, e + 4, e + 6)
  }

  predicate FieldsInRange(year: int, month: int, day: int, hour: int, minute: int, second: int) {
    && 1 <= month <= 12 && 1 <= day <= MonthLength(month, IsLeap(year))
    && 0 <= hour < 24 && 0 <= minute < 60 && 0 <= second < 60
  }

  /**
    `time.Parse(time.RFC3339, s)`. A text that ends in `Z` is a UTC time; `otherZone` reads fractional
    seconds and numeric offsets.
   */
  function ParseTime(otherZone: string -> Option<Time>, s: string): Option<Time> {
    if !HasDateTime(s) then None
    else
      var year, month, day := ValueOf(s[0..4]), ValueOf(s[5..7]), ValueOf(s[8..10]);
      var e := HourEnd(s);
      var hour, minute, second := ValueOf(s[11..e]), ValueOf(s[e + 1..e + 3]), ValueOf(s[e + 4..e + 6]);
      if !FieldsInRange(year, month, day, hour, minute, second) then None
      else if s[e + 6..] == "Z" then Some(Date(year, month, day, hour, minute, second, 0))
      else otherZone(s)
  }

  /** Base64 and the reading of other zones, as the server has them. */
  datatype Texts = Texts(encode: string -> string, decode: string -> Option<string>, otherZone: string -> Option<Time>)

  ghost predicate IsBase64(x: Texts) {
    forall s :: x.decode(x.encode(s)) == Some(s) && (s != "" ==> x.encode(s) != "")
  }

  function EncodeCursor(x: Texts, t: Time): string {
    x.encode(FormatTime(t))
  }

  /** A cursor that cannot be read counts as none. */
  function DecodeCursor(x: Texts, cursor: string): Option<Time> {
    if cursor == "" then None
    else
      match x.decode(cursor)
      case None => None
      case Some(text) => ParseTime(x.otherZone, text)
  }

  lemma TwoDigitsRead(n: int)
    requires 0 <= n < 100
    ensures |TwoDigits(n)| == 2 && (forall c <- TwoDigits(n) :: IsDigit(c)) && ValueOf(TwoDigits(n)) == n
  {
    var s := TwoDigits(n);
    assert s[..1] == [Digit(n / 10)] && s[..1][..0] == [];
    assert ValueOf(s[..1]) == n / 10;
  }

  lemma {:induction false} DigitCount(n: nat)
    ensures n < 10 ==> |DigitsOf(n)| == 1
    ensures 10 <= n < 100 ==> |DigitsOf(n)| == 2
    ensures 100 <= n < 1000 ==> |DigitsOf(n)| == 3
    ensures 1000 <= n < 10000 ==> |DigitsOf(n)| == 4
    ensures n >= 10000 ==> |DigitsOf(n)| >= 5
  {
    if n >= 10 {
      DigitCount(n / 10);
    }
  }

  lemma YearText(t: Time)
    ensures 0 <= Year(t) <= 9999 <==> |FormatYear(Year(t))| == 4 && forall c <- FormatYear(Year(t)) :: IsDigit(c)
    ensures |FormatYear(Year(t))| >= 4
    ensures Year(t) > 9999 ==> |FormatYear(Year(t))| > 4 && forall c <- FormatYear(Year(t)) :: IsDigit(c)
    ensures Year(t) < 0 ==> FormatYear(Year(t))[0] == '-'
  {
    var y := Year(t);
    PaddedReads(if y < 0 then -y else y, 4);
    DigitCount(if y < 0 then -y else y);
    if y < 0 {
      assert FormatYear(y)[0] in FormatYear(y);
    }
  }

  lemma FormattedShape(t: Time)
    requires 0 <= Year(t) <= 9999
    ensures var s := FormatTime(t);
            && HasDateTime(s) && HourEnd(s) == 13 && s[19..] == "Z"
            && ValueOf(s[0..4]) == Year(t) && ValueOf(s[5..7]) == Month(t) && ValueOf(s[8..10]) == DayOfMonth(t)
            && ValueOf(s[11..13]) == Hour(t) && ValueOf(s[14..16]) == Minute(t) && ValueOf(s[17..19]) == Second(t)
  {
    hide FormatYear, FormatRest, Year, Month, DayOfMonth, Hour, Minute, Second, TwoDigits, ValueOf;
    var y, r, s := FormatYear(Year(t)), FormatRest(t), FormatTime(t);
    YearText(t);
    YearValue(Year(t));
    RestShape(t);
    RestSeparators(t);
    ClockFields(t);
    TwoDigitsRead(Month(t));
    TwoDigitsRead(DayOfMonth(t));
    TwoDigitsRead(Hour(t));
    TwoDigitsRead(Minute(t));
    TwoDigitsRead(Second(t));
    assert s[0..4] == y && s[5..7] == r[1..3] && s[8..10] == r[4..6] && s[11..13] == r[7..9];
    assert s[14..16] == r[10..12] && s[17..19] == r[13..15] && s[19..] == r[15..];
    assert s[12] == s[11..13][1] && s[11..13][1] in s[11..13];
  }

  lemma YearValue(y: int)
    requires 0 <= y
    ensures (forall c <- FormatYear(y) :: IsDigit(c)) && ValueOf(FormatYear(y)) == y
  {
    PaddedReads(y, 4);
  }

  lemma RestSeparators(t: Time)
    ensures var r := FormatRest(t);
            && |r| == 16 && r[0] == '-' && r[3] == '-' && r[6] == 'T' && r[9] == ':' && r[12] == ':' && r[15..] == "Z"
  {
    hide Year, Month, DayOfMonth, Hour, Minute, Second;
    ClockFields(t);
  }

  /** A whole second survives the cursor exactly when its year has at most four digits and is not negative. */
  lemma CursorRoundTrip(x: Texts, t: Time)
    requires IsBase64(x) && t % SECOND == 0
    ensures DecodeCursor(x, EncodeCursor(x, t)) == (if 0 <= Year(t) <= 9999 then Some(t) else None)
  {
    hide FormatRest, FormatYear, Year, Month, DayOfMonth, Hour, Minute, Second, Date, ValueOf;
    var s := FormatTime(t);
    RestShape(t);
    YearText(t);
    assert s != "";
    assert x.decode(x.encode(s)) == Some(s) && x.encode(s) != "";
    if 0 <= Year(t) <= 9999 {
      FormattedShape(t);
      ClockFields(t);
      FieldsRoundTrip(t);
    } else {
      var y := FormatYear(Year(t));
      assert s[0] == y[0];
      if Year(t) > 9999 {
        assert s[4] == y[4] && y[4] in y;
      } else {
        assert s[0..4][0] == '-' && s[0..4][0] in s[0..4];
      }
    }
  }

  // ---- rows of a query ------------------------------------------------------------------------

  datatype Row = Row(open: Time, candle: Candle)

  /** The rows `LOWER(token_address) = LOWER($1) AND interval = $2`, before the cursor if there is one. */
  function Matching(klines: Klines, token: string, i: Interval, cursor: Option<Time>): (keys: set<CandleKey>)
    ensures keys <= klines.Keys
  {
    set k <- klines.Keys | Lower(k.token) == Lower(token) && k.interval == i && (cursor.None? || k.open < cursor.value)
  }

  predicate NewestFirst(keys: seq<CandleKey>) {
    forall a, b :: 0 <= a < b < |keys| ==> keys[a].open >= keys[b].open && keys[a] != keys[b]
  }

  /**
    `ORDER BY open_time DESC LIMIT n`. Addresses that differ in case are different rows with possibly the
    same open time; which of them comes first, or falls behind the limit, is not determined.
   */
  ghost predicate IsNewest(all: set<CandleKey>, n: nat, keys: seq<CandleKey>) {
    && NewestFirst(keys)
    && |keys| <= n
    && (forall k <- keys :: k in all)
    && (forall k <- all | k !in keys :: |keys| == n && forall x <- keys :: k.open <= x.open)
  }

  function RowsOf(klines: Klines, keys: seq<CandleKey>): (rows: seq<Row>)
    requires forall k <- keys :: k in klines
    ensures |rows| == |keys|
  {
    seq(|keys|, j requires 0 <= j < |keys| => Row(keys[j].open, klines[keys[j]]))
  }

  /** The rows are those of the newest `n` keys of `all`. */
  ghost predicate ArePage(klines: Klines, all: set<CandleKey>, n: nat, rows: seq<Row>)
    requires all <= klines.Keys
  {
    exists keys | IsNewest(all, n, keys) :: rows == RowsOf(klines, keys)
  }

  function Reversed<T>(s: seq<T>): (r: seq<T>)
    ensures |r| == |s| && forall j :: 0 <= j < |s| ==> r[j] == s[|s| - 1 - j]
  {
    seq(|s|, j requires 0 <= j < |s| => s[|s| - 1 - j])
  }

  function ClampLimit(limit: int): (n: nat)
    ensures 1 <= n <= 1000
    ensures limit <= 0 ==> n == 300
    ensures limit > 0 ==> n == if limit < 1000 then limit else 1000
  {
    if limit <= 0 then 300 else if limit > 1000 then 1000 else limit
  }

  lemma {:induction false} NewestExists(keys: set<CandleKey>) returns (m: CandleKey)
    requires keys != {}
    ensures m in keys && forall k <- keys :: k.open <= m.open
    decreases keys
  {
    var x :| x in keys;
    m := x;
    if keys - {x} == {} {
      assert keys == {x};
    } else {
      var n := NewestExists(keys - {x});
      m := if n.open > x.open then n else x;
      forall k <- keys
        ensures k.open <= m.open
      {
        assert k == x || k in keys - {x};
      }
    }
  }

  // ---- the query ------------------------------------------------------------------------------

  datatype Condition = TokenIs(token: string) | IntervalIs(i: Interval) | OpenBefore(t: Time)

  predicate Holds(c: Condition, k: CandleKey) {
    match c
    case TokenIs(token) => Lower(k.token) == Lower(token)
    case IntervalIs(i) => k.interval == i
    case OpenBefore(t) => k.open < t
  }

  predicate Matches(conditions: seq<Condition>, k: CandleKey) {
    forall c <- conditions :: Holds(c, k)
  }

  function Selected(klines: Klines, conditions: seq<Condition>): (keys: set<CandleKey>)
    ensures keys <= klines.Keys
  {
    set k <- klines.Keys | Matches(conditions, k)
  }

  class KlineModel {
    var klines: Klines
    const faults: Faults

    constructor (klines: Klines, faults: Faults)
      ensures this.klines == klines && this.faults == faults
    {
      this.klines, this.faults := klines, faults;
    }

    /** The database: rows that meet the conditions, newest first, at most `limit`. */
    method Select(conditions: seq<Condition>, limit: nat) returns (err: bool, rows: seq<Row>)
      modifies faults
      ensures faults.count == old(faults.count) + if err then 1 else 0
      ensures ArePage(klines, Selected(klines, conditions), limit, rows)
    {
      hide Selected;
      err := faults.Occurs();
      var all := Selected(klines, conditions);
      var rest, taken := all, [];
      while rest != {} && |taken| < limit
        invariant faults.count == old(faults.count) + if err then 1 else 0
        invariant rest <= all && NewestFirst(taken) && |taken| <= limit
        invariant forall k :: k in taken <==> k in all - rest
        invariant forall k <- rest, x <- taken :: k.open <= x.open
        decreases rest
      {
        ghost var newest := NewestExists(rest);
        var m :| m in rest && forall k <- rest :: k.open <= m.open;
        rest, taken := rest - {m}, taken + [m];
      }
      assert IsNewest(all, limit, taken);
      rows := RowsOf(klines, taken);
    }

    /** The newest candles before the cursor: at most the clamped limit, and newest first. */
    method FindByTokenAndInterval(token: string, i: Interval, cursorTime: Option<Time>, limit: int)
      returns (err: bool, found: seq<Row>)
      modifies faults
      ensures faults.count == old(faults.count) + if err then 1 else 0
      ensures !err ==> ArePage(klines, Matching(klines, token, i, cursorTime), ClampLimit(limit), found)
    {
      hide Selected, Matching, ArePage;
      var n := limit;
      if n <= 0 {
        n := 300;
      }
      if n > 1000 {
        n := 1000;
      }
      var conditions := [TokenIs(token), IntervalIs(i)];
      if cursorTime.Some? {
        conditions := conditions + [OpenBefore(cursorTime.value)];
      }
      var failed, rows := Select(conditions, n);
      if failed {
        return true, [];
      }
      ConditionsSelect(klines, token, i, cursorTime, conditions);
      found := [];
      for j := 0 to |rows|
        invariant found == rows[..j]
      {
        found := found + [rows[j]];
      }
      assert found == rows;
      return false, found;
    }
  }

  lemma ConditionsSelect(klines: Klines, token: string, i: Interval, cursor: Option<Time>, conditions: seq<Condition>)
    requires conditions == [TokenIs(token), IntervalIs(i)] + if cursor.None? then [] else [OpenBefore(cursor.value)]
    ensures Selected(klines, conditions) == Matching(klines, token, i, cursor)
  {
    forall k: CandleKey
      ensures Matches(conditions, k)
         <==> Lower(k.token) == Lower(token) && k.interval == i && (cursor.None? || k.open < cursor.value)
    {
      assert conditions[0] == TokenIs(token) && conditions[1] == IntervalIs(i);
      assert cursor.Some? ==> conditions[2] == OpenBefore(cursor.value);
      if Matches(conditions, k) {
        assert conditions[0] in conditions && conditions[1] in conditions;
        assert cursor.Some? ==> conditions[2] in conditions;
      }
    }
  }

  // ---- the request ----------------------------------------------------------------------------

  datatype Request = Request(tokenAddr: string, interval: string, cursor: string, limit: int)

  datatype Response =
    | Failure(code: int)
    | Page(cursor: string, t: seq<int>, o: seq<int>, h: seq<int>, l: seq<int>, c: seq<int>, v: seq<int>)

  function ParseInterval(name: string): Option<Interval> {
    if name == "1m" then Some(M1)
    else if name == "5m" then Some(M5)
    else if name == "15m" then Some(M15)
    else if name == "30m" then Some(M30)
    else if name == "1h" then Some(H1)
    else if name == "4h" then Some(H4)
    else if name == "1d" then Some(D1)
    else if name == "1w" then Some(W1)
    else None
  }

  function UnitLength(unit: char): int {
    if unit == 'm' then MINUTE else if unit == 'h' then HOUR else if unit == 'd' then DAY else 7 * DAY
  }

  /** Exactly eight names are known, and each says how long a bucket is: a number and a unit. */
  lemma NamesGiveLengths(name: string)
    ensures ParseInterval(name).Some? <==> name in ["1m", "5m", "15m", "30m", "1h", "4h", "1d", "1w"]
    ensures ParseInterval(name).Some? ==>
      var n := |name| - 1;
      && n >= 1 && (forall c <- name[..n] :: IsDigit(c)) && name[n] in "mhdw"
      && Span(ParseInterval(name).value) == ValueOf(name[..n]) * UnitLength(name[n])
  {
    if ParseInterval(name).Some? {
      var n := |name| - 1;
      assert name[..n][..0] == [] && name[..n][..1] == [name[0]] && [name[0]][..0] == [];
      assert ValueOf([name[0]]) == name[0] as int - '0' as int;
      assert n == 1 ==> name[..n] == [name[0]];
    }
  }

  lemma NoNameNoInterval()
    ensures ParseInterval("") == None
  {
  }

  /** The response carries the rows column by column, and as cursor the open time of the first one. */
  ghost predicate Shows(x: Texts, r: Response, rows: seq<Row>) {
    && r.Page?
    && |r.t| == |r.o| == |r.h| == |r.l| == |r.c| == |r.v| == |rows|
    && (forall j :: 0 <= j < |rows| ==>
          && r.t[j] == ToUnix(rows[j].open)
          && Candle(r.o[j], r.h[j], r.l[j], r.c[j], r.v[j]) == rows[j].candle)
    && r.cursor == if rows == [] then "" else EncodeCursor(x, rows[0].open)
  }

  method GetKlineHistoryWithCursor(x: Texts, model: KlineModel, req: Request) returns (r: Response)
    modifies model.faults
    ensures r.Failure? ==> r.code == 400 || r.code == 500
    ensures r == Failure(500) <==> model.faults.count > old(model.faults.count)
    ensures r.Failure? && r.code == 400 <==> req.tokenAddr == "" || ParseInterval(req.interval).None?
    ensures r.Page? ==>
      var all := Matching(model.klines, req.tokenAddr, ParseInterval(req.interval).value, DecodeCursor(x, req.cursor));
      exists rows | ArePage(model.klines, all, ClampLimit(req.limit), rows) :: Shows(x, r, Reversed(rows))
  {
    hide DecodeCursor, EncodeCursor, Matching, ArePage, ParseInterval, ToUnix;
    NoNameNoInterval();
    if req.tokenAddr == "" {
      return Failure(400);
    }
    if req.interval == "" {
      return Failure(400);
    }
    var interval := ParseInterval(req.interval);
    if interval.None? {
      return Failure(400);
    }
    var limit := req.limit;
    if limit <= 0 {
      limit := 300;
    }
    if limit > 1000 {
      limit := 1000;
    }
    var cursorTime := DecodeCursor(x, req.cursor);
    var failed, klines := model.FindByTokenAndInterval(req.tokenAddr, interval.value, cursorTime, limit);
    if failed {
      return Failure(500);
    }
    var t, o, h, l, c, v: seq<int> := [], [], [], [], [], [];
    var i := |klines| - 1;
    while i >= 0
      invariant -1 <= i < |klines|
      invariant |t| == |o| == |h| == |l| == |c| == |v| == |klines| - 1 - i
      invariant forall j :: 0 <= j < |t| ==>
        && t[j] == ToUnix(klines[|klines| - 1 - j].open)
        && Candle(o[j], h[j], l[j], c[j], v[j]) == klines[|klines| - 1 - j].candle
    {
      var k := klines[i];
      t := t + [ToUnix(k.open)];
      o := o + [k.candle.open];
      h := h + [k.candle.high];
      l := l + [k.candle.low];
      c := c + [k.candle.close];
      v := v + [k.candle.volume];
      i := i - 1;
    }
    var nextCursor := "";
    if |klines| > 0 {
      nextCursor := EncodeCursor(x, klines[|klines| - 1].open);
    }
    r := Page(nextCursor, t, o, h, l, c, v);
    assert Shows(x, r, Reversed(klines));
  }
}
