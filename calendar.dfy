/** Proleptic Gregorian dates as Python's `datetime.date` holds them (years 1 to 9999),
    the `%Y-%m-%d` directive of `strptime`/`strftime`, and the one-day step of
    `date + timedelta(days=1)`. */
module Calendar {
  import opened Wrappers
  import opened Digits

  const MinYear: int := 1
  const MaxYear: int := 9999

  datatype Date = Date(year: int, month: int, day: int)

  /** The two exceptions the date code can raise. */
  datatype DateError = ValueError | OverflowError

  predicate IsLeapYear(y: int)
  {
    y % 4 == 0 && (y % 100 != 0 || y % 400 == 0)
  }

  function DaysInMonth(y: int, m: int): (n: int)
    requires 1 <= m <= 12
    ensures 28 <= n <= 31
    ensures n == 29 <==> m == 2 && IsLeapYear(y)
    ensures n == 28 <==> m == 2 && !IsLeapYear(y)
  {
    if m == 2 then (if IsLeapYear(y) then 29 else 28)
    else if m == 4 || m == 6 || m == 9 || m == 11 then 30
    else 31
  }

  predicate ValidDate(d: Date)
  {
    MinYear <= d.year <= MaxYear && 1 <= d.month <= 12 && 1 <= d.day <= DaysInMonth(d.year, d.month)
  }

  /** Chronological order on dates: lexicographic on (year, month, day). */
  predicate Before(a: Date, b: Date)
  {
    a.year < b.year || (a.year == b.year && (a.month < b.month || (a.month == b.month && a.day < b.day)))
  }

  function DaysInYear(y: int): int
  {
    if IsLeapYear(y) then 366 else 365
  }

  /** Days in the years before `y` (the count `date.toordinal` starts from). */
  function DaysBeforeYear(y: int): int
    requires y >= 1
  {
    if y == 1 then 0 else DaysBeforeYear(y - 1) + DaysInYear(y - 1)
  }

  function DaysBeforeMonth(y: int, m: int): int
    requires 1 <= m <= 12
  {
    if m == 1 then 0 else DaysBeforeMonth(y, m - 1) + DaysInMonth(y, m - 1)
  }

  /** Python's `date.toordinal()`: 0001-01-01 is day 1. */
  function DayNumber(d: Date): int
    requires ValidDate(d)
  {
    DaysBeforeYear(d.year) + DaysBeforeMonth(d.year, d.month) + d.day
  }

  /** `d + timedelta(days=1)`, which overflows past 9999-12-31. */
  function NextDay(d: Date): (r: Result<Date, DateError>)
    requires ValidDate(d)
    ensures r.Success? <==> d != Date(MaxYear, 12, 31)
    ensures r.Failure? ==> r.error == OverflowError
    ensures r.Success? ==> ValidDate(r.value) && Before(d, r.value)
  {
    if d.day < DaysInMonth(d.year, d.month) then Success(Date(d.year, d.month, d.day + 1))
    else if d.month < 12 then Success(Date(d.year, d.month + 1, 1))
    else if d.year < MaxYear then Success(Date(d.year + 1, 1, 1))
    else Failure(OverflowError)
  }

  /** The next day is the immediate successor: no valid date lies strictly between. */
  lemma NextDayIsSuccessor(d: Date, x: Date)
    requires ValidDate(d) && ValidDate(x) && NextDay(d).Success?
    ensures !(Before(d, x) && Before(x, NextDay(d).value))
  {
  }

  lemma MonthsOfYear(y: int)
    ensures DaysBeforeMonth(y, 12) + 31 == DaysInYear(y)
  {
    var leap := if IsLeapYear(y) then 1 else 0;
    assert DaysBeforeMonth(y, 2) == 31;
    assert DaysBeforeMonth(y, 3) == 59 + leap;
    assert DaysBeforeMonth(y, 4) == 90 + leap;
    assert DaysBeforeMonth(y, 5) == 120 + leap;
    assert DaysBeforeMonth(y, 6) == 151 + leap;
    assert DaysBeforeMonth(y, 7) == 181 + leap;
    assert DaysBeforeMonth(y, 8) == 212 + leap;
    assert DaysBeforeMonth(y, 9) == 243 + leap;
    assert DaysBeforeMonth(y, 10) == 273 + leap;
    assert DaysBeforeMonth(y, 11) == 304 + leap;
  }

  /** The next day's ordinal is one more: the rollover follows month lengths and leap years. */
  lemma NextDayNumber(d: Date)
    requires ValidDate(d) && NextDay(d).Success?
    ensures DayNumber(NextDay(d).value) == DayNumber(d) + 1
  {
    if d.day == DaysInMonth(d.year, d.month) && d.month == 12 {
      MonthsOfYear(d.year);
    }
  }

  // ---- `%Y-%m-%d` as CPython's _strptime regular expression reads it ----

  /** `%m` is `1[0-2]|0[1-9]|[1-9]`, tried in that order and backtracked until the `-`
      that follows matches: the month and the number of characters it took. */
  function MatchMonth(r: string): (o: Option<(int, nat)>)
    ensures o.Some? ==> 1 <= o.value.0 <= 12 && 1 <= o.value.1 < |r| && r[o.value.1] == '-'
  {
    if |r| >= 3 && r[2] == '-' && ((r[0] == '1' && '0' <= r[1] <= '2') || (r[0] == '0' && '1' <= r[1] <= '9')) then
      Some((10 * DigitValue(r[0]) + DigitValue(r[1]), 2))
    else if |r| >= 2 && r[1] == '-' && '1' <= r[0] <= '9' then
      Some((DigitValue(r[0]), 1))
    else None
  }

  /** `%d` is `3[01]|[12]\d|0[1-9]|[1-9]| [1-9]`; it ends the pattern, so the first
      alternative that matches is taken: the day and the characters it took. */
  function MatchDay(q: string): (o: Option<(int, nat)>)
    ensures o.Some? ==> 1 <= o.value.0 <= 31 && 1 <= o.value.1 <= |q| && o.value.1 <= 2
  {
    if |q| >= 2 && q[0] == '3' && (q[1] == '0' || q[1] == '1') then Some((30 + DigitValue(q[1]), 2))
    else if |q| >= 2 && (q[0] == '1' || q[0] == '2') && IsDigit(q[1]) then Some((10 * DigitValue(q[0]) + DigitValue(q[1]), 2))
    else if |q| >= 2 && q[0] == '0' && '1' <= q[1] <= '9' then Some((DigitValue(q[1]), 2))
    else if |q| >= 1 && '1' <= q[0] <= '9' then Some((DigitValue(q[0]), 1))
    else if |q| >= 2 && q[0] == ' ' && '1' <= q[1] <= '9' then Some((DigitValue(q[1]), 2))
    else None
  }

  /** `%Y` is `\d\d\d\d`: exactly four digits. */
  predicate FourDigitYear(s: string)
  {
    |s| >= 4 && IsDigit(s[0]) && IsDigit(s[1]) && IsDigit(s[2]) && IsDigit(s[3])
  }

  /** `datetime.strptime(s, '%Y-%m-%d')`: text left over after the day ("unconverted
      data remains"), year 0 and a day past the end of the month all raise ValueError. */
  function ParseYmd(s: string): (r: Result<Date, DateError>)
    ensures r.Success? ==> ValidDate(r.value)
    ensures r.Failure? ==> r.error == ValueError
  {
    if |s| < 5 || !FourDigitYear(s) || s[4] != '-' then Failure(ValueError)
    else
      var year := 1000 * DigitValue(s[0]) + 100 * DigitValue(s[1]) + 10 * DigitValue(s[2]) + DigitValue(s[3]);
      var rest := s[5..];
      match MatchMonth(rest)
      case None => Failure(ValueError)
      case Some((month, mlen)) =>
        var q := rest[mlen + 1..];
        match MatchDay(q)
        case None => Failure(ValueError)
        case Some((day, dlen)) =>
          var d := Date(year, month, day);
          if dlen != |q| || !ValidDate(d) then Failure(ValueError) else Success(d)
  }

  /** `date.strftime('%Y-%m-%d')`: a four-digit year and a two-digit month and day,
      zero-padded. */
  function FormatDate(d: Date): (s: string)
    requires ValidDate(d)
    ensures |s| == 10 && s[4] == '-' && s[7] == '-'
  {
    [DigitChar(d.year / 1000 % 10), DigitChar(d.year / 100 % 10), DigitChar(d.year / 10 % 10), DigitChar(d.year % 10), '-',
     DigitChar(d.month / 10 % 10), DigitChar(d.month % 10), '-',
     DigitChar(d.day / 10 % 10), DigitChar(d.day % 10)]
  }

  /** A formatted date has no blank in it. */
  lemma FormattedHasNoBlank(d: Date)
    requires ValidDate(d)
    ensures forall i :: 0 <= i < |FormatDate(d)| ==> FormatDate(d)[i] != ' '
  {
  }

  /** Parsing what `strftime` printed gives back the same date. */
  lemma ParseFormatRoundTrip(d: Date)
    requires ValidDate(d)
    ensures ParseYmd(FormatDate(d)) == Success(d)
  {
    var s := FormatDate(d);
    YearDigits(d.year);
    MonthDigits(d, s[5..]);
    assert s[5..][3..] == s[8..];
    DayDigits(d, s[8..]);
  }

  /** The four digits printed for a year from 1 to 9999 read back as that year. */
  lemma YearDigits(y: int)
    requires MinYear <= y <= MaxYear
    ensures 1000 * (y / 1000 % 10) + 100 * (y / 100 % 10) + 10 * (y / 10 % 10) + y % 10 == y
  {
    assert y / 100 / 10 == y / 1000 && y / 10 / 10 == y / 100;
    assert y / 1000 % 10 == y / 1000;
    assert y == 10 * (y / 10) + y % 10;
    assert y / 10 == 10 * (y / 100) + y / 10 % 10;
    assert y / 100 == 10 * (y / 1000) + y / 100 % 10;
  }

  /** The zero-padded month and the dash after it match `%m` with two characters. */
  lemma MonthDigits(d: Date, rest: string)
    requires ValidDate(d) && rest == FormatDate(d)[5..]
    ensures MatchMonth(rest) == Some((d.month, 2))
  {
    var m := d.month;
    assert rest[0] == DigitChar(m / 10 % 10) && rest[1] == DigitChar(m % 10) && rest[2] == '-';
    if m >= 10 {
      assert m / 10 % 10 == 1 && m % 10 <= 2;
    } else {
      assert m / 10 % 10 == 0 && m % 10 >= 1;
    }
    assert 10 * (m / 10 % 10) + m % 10 == m;
  }

  /** The zero-padded day matches `%d` with two characters, which end the text. */
  lemma DayDigits(d: Date, q: string)
    requires ValidDate(d) && q == FormatDate(d)[8..]
    ensures MatchDay(q) == Some((d.day, 2)) && |q| == 2
  {
    var n := d.day;
    assert q[0] == DigitChar(n / 10 % 10) && q[1] == DigitChar(n % 10);
    assert n / 10 % 10 <= 3 && 10 * (n / 10 % 10) + n % 10 == n;
  }

  /** A string `strptime` accepts holds nothing but digits, dashes and the blank of
      the ` [1-9]` day form; in particular an ISO `T` separator is refused. */
  lemma ParsedCharacters(s: string, i: int)
    requires ParseYmd(s).Success? && 0 <= i < |s|
    ensures IsDigit(s[i]) || s[i] == '-' || s[i] == ' '
  {
    var rest := s[5..];
    var mlen := MatchMonth(rest).value.1;
    var q := rest[mlen + 1..];
    if i >= 5 + mlen + 1 {
      assert s[i] == q[i - 5 - mlen - 1];
    } else if i > 4 {
      assert s[i] == rest[i - 5];
    }
  }
}
