/** Wall-clock values as Python's `datetime.now()` gives them, and the
    `strftime` renderings the log and the report scheduler use:
    "%Y-%m" (the month key), "%Y-%m-%d" and "%H:%M:%S". */
module Clock {

  datatype DateTime = DateTime(year: int, month: int, day: int, hour: int, minute: int, second: int)
  {
    /** A calendar date and time of day; years are four-digit */
    predicate Valid() {
      && 1000 <= year <= 9999
      && 1 <= month <= 12
      && 1 <= day <= DaysInMonth(year, month)
      && 0 <= hour < 24 && 0 <= minute < 60 && 0 <= second < 60
    }
  }

  predicate IsLeapYear(y: int) {
    y % 4 == 0 && (y % 100 != 0 || y % 400 == 0)
  }

  function DaysInMonth(y: int, m: int): int {
    if m == 2 then (if IsLeapYear(y) then 29 else 28)
    else if m == 4 || m == 6 || m == 9 || m == 11 then 30
    else 31
  }

  /** Months counted from year 0, so that later months have larger indices */
  function MonthIndex(t: DateTime): int {
    t.year * 12 + t.month - 1
  }

  /** a is at or before b on the wall clock */
  predicate NotAfter(a: DateTime, b: DateTime) {
    (a.year, a.month, a.day, a.hour, a.minute, a.second) == (b.year, b.month, b.day, b.hour, b.minute, b.second)
    || a.year < b.year
    || (a.year == b.year && a.month < b.month)
    || (a.year == b.year && a.month == b.month && a.day < b.day)
    || (a.year == b.year && a.month == b.month && a.day == b.day && a.hour < b.hour)
    || (a.year == b.year && a.month == b.month && a.day == b.day && a.hour == b.hour && a.minute < b.minute)
    || (a.year == b.year && a.month == b.month && a.day == b.day && a.hour == b.hour && a.minute == b.minute && a.second <= b.second)
  }

  /** A clock that never runs backwards */
  predicate Monotone(times: seq<DateTime>) {
    forall i, j :: 0 <= i < j < |times| ==> NotAfter(times[i], times[j])
  }

  lemma NotAfterMonth(a: DateTime, b: DateTime)
    requires a.Valid() && b.Valid() && NotAfter(a, b)
    ensures MonthIndex(a) <= MonthIndex(b)
  {
  }

  function Digit(d: int): (c: char)
    requires 0 <= d <= 9
    ensures '0' <= c <= '9'
  {
    (48 + d) as char
  }

  function DigitValue(c: char): int {
    c as int - 48
  }

  /** Two decimal digits, zero-padded ("%m", "%d", "%H", "%M", "%S") */
  function Pad2(n: int): (s: string)
    requires 0 <= n <= 99
    ensures |s| == 2 && forall c <- s :: '0' <= c <= '9'
  {
    [Digit(n / 10), Digit(n % 10)]
  }

  /** Four decimal digits, zero-padded ("%Y") */
  function Pad4(n: int): (s: string)
    requires 0 <= n <= 9999
    ensures |s| == 4 && forall c <- s :: '0' <= c <= '9'
  {
    Pad2(n / 100) + Pad2(n % 100)
  }

  function Parse2(s: string): int
    requires |s| == 2
  {
    10 * DigitValue(s[0]) + DigitValue(s[1])
  }

  function Parse4(s: string): int
    requires |s| == 4
  {
    100 * Parse2(s[..2]) + Parse2(s[2..])
  }

  lemma Pad2RoundTrip(n: int)
    requires 0 <= n <= 99
    ensures Parse2(Pad2(n)) == n
  {
  }

  lemma {:induction false} Pad4RoundTrip(n: int)
    requires 0 <= n <= 9999
    ensures Parse4(Pad4(n)) == n
  {
    var s := Pad4(n);
    assert s[..2] == Pad2(n / 100) && s[2..] == Pad2(n % 100);
    Pad2RoundTrip(n / 100);
    Pad2RoundTrip(n % 100);
  }

  /** `now.strftime("%Y-%m")`: the month key that names a monthly log */
  function MonthKey(t: DateTime): (key: string)
    requires t.Valid()
    ensures |key| == 7 && key[4] == '-'
  {
    Pad4(t.year) + "-" + Pad2(t.month)
  }

  /** `now.strftime("%Y-%m-%d")`: it begins with the month key */
  function DateStamp(t: DateTime): (stamp: string)
    requires t.Valid()
    ensures |stamp| == 10 && stamp[..7] == MonthKey(t) && stamp[7] == '-'
  {
    MonthKey(t) + "-" + Pad2(t.day)
  }

  /** `now.strftime("%H:%M:%S")` */
  function TimeStamp(t: DateTime): (stamp: string)
    requires t.Valid()
    ensures |stamp| == 8 && stamp[2] == ':' && stamp[5] == ':'
  {
    Pad2(t.hour) + ":" + Pad2(t.minute) + ":" + Pad2(t.second)
  }

  /** The month key reads back as the year and month it was made from */
  lemma {:induction false} MonthKeyRoundTrip(t: DateTime)
    requires t.Valid()
    ensures Parse4(MonthKey(t)[..4]) == t.year && Parse2(MonthKey(t)[5..]) == t.month
  {
    var key := MonthKey(t);
    assert key[..4] == Pad4(t.year) && key[5..] == Pad2(t.month);
    Pad4RoundTrip(t.year);
    Pad2RoundTrip(t.month);
  }

  /** Two times share a month key exactly when they fall in the same calendar month */
  lemma {:induction false} MonthKeySameMonth(a: DateTime, b: DateTime)
    requires a.Valid() && b.Valid()
    ensures MonthKey(a) == MonthKey(b) <==> MonthIndex(a) == MonthIndex(b)
  {
    if MonthKey(a) == MonthKey(b) {
      MonthKeyRoundTrip(a);
      MonthKeyRoundTrip(b);
      assert a.year == b.year && a.month == b.month;
    }
    if MonthIndex(a) == MonthIndex(b) {
      assert a.year == b.year && a.month == b.month;
      assert Pad4(a.year) + "-" + Pad2(a.month) == Pad4(b.year) + "-" + Pad2(b.month);
    }
  }

  /** The date stamp reads back as the day, month and year it was made from */
  lemma {:induction false} DateStampRoundTrip(t: DateTime)
    requires t.Valid()
    ensures var d := DateStamp(t);
      Parse4(d[..4]) == t.year && Parse2(d[5..7]) == t.month && Parse2(d[8..]) == t.day
  {
    var d := DateStamp(t);
    MonthKeyRoundTrip(t);
    assert d[..4] == MonthKey(t)[..4] && d[5..7] == MonthKey(t)[5..];
    assert d[8..] == Pad2(t.day);
    Pad2RoundTrip(t.day);
  }

  /** The time stamp reads back as the hour, minute and second it was made from */
  lemma {:induction false} TimeStampRoundTrip(t: DateTime)
    requires t.Valid()
    ensures var s := TimeStamp(t);
      Parse2(s[..2]) == t.hour && Parse2(s[3..5]) == t.minute && Parse2(s[6..]) == t.second
  {
    var s := TimeStamp(t);
    assert s[..2] == Pad2(t.hour) && s[3..5] == Pad2(t.minute) && s[6..] == Pad2(t.second);
    Pad2RoundTrip(t.hour);
    Pad2RoundTrip(t.minute);
    Pad2RoundTrip(t.second);
  }
}
