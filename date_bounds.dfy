/** The date-bound block repeated at the top of every fetcher: a start bound becomes the
    `YYYY-MM-DD` of its date part (inclusive lower bound), an end bound becomes the day
    after its date part (exclusive upper bound), and a missing or empty bound is left
    as it is. */
module DateBounds {
  import opened Wrappers
  import opened Calendar

  /** `s.split(" ")[0]`: the text before the first blank (all of `s` when there is none). */
  function BeforeFirstSpace(s: string): (p: string)
    ensures |p| <= |s| && p == s[..|p|]
    ensures forall i :: 0 <= i < |p| ==> p[i] != ' '
    ensures |p| < |s| ==> s[|p|] == ' '
  {
    if s == [] || s[0] == ' ' then [] else [s[0]] + BeforeFirstSpace(s[1..])
  }

  /** The start bound: `strptime(start.split(" ")[0], '%Y-%m-%d').strftime('%Y-%m-%d')`
      when the bound is truthy, otherwise unchanged. */
  function NormalizeStart(bound: Option<string>): (r: Result<Option<string>, DateError>)
    ensures bound.None? || bound == Some("") ==> r == Success(bound)
    ensures r.Failure? ==> r.error == ValueError && bound.Some? && ParseYmd(BeforeFirstSpace(bound.value)).Failure?
    ensures r.Success? && bound.Some? && bound.value != "" ==>
      r.value.Some? && |r.value.value| == 10 && r.value.value[4] == '-' && r.value.value[7] == '-'
  {
    match bound
    case None => Success(None)
    case Some(s) =>
      if s == "" then Success(bound)
      else
        var d :- ParseYmd(BeforeFirstSpace(s));
        Success(Some(FormatDate(d)))
  }

  /** The end bound: the parsed date part plus one day, formatted `%Y-%m-%d`. */
  function NormalizeEnd(bound: Option<string>): (r: Result<Option<string>, DateError>)
    ensures bound.None? || bound == Some("") ==> r == Success(bound)
    ensures r.Failure? ==>
      && bound.Some?
      && (r.error == OverflowError <==> ParseYmd(BeforeFirstSpace(bound.value)) == Success(Date(MaxYear, 12, 31)))
    ensures r.Success? && bound.Some? && bound.value != "" ==>
      r.value.Some? && |r.value.value| == 10 && r.value.value[4] == '-' && r.value.value[7] == '-'
  {
    match bound
    case None => Success(None)
    case Some(s) =>
      if s == "" then Success(bound)
      else
        var d :- ParseYmd(BeforeFirstSpace(s));
        var next :- NextDay(d);
        Success(Some(FormatDate(next)))
  }

  /** A given start bound fails exactly when its date part does not parse; otherwise it
      becomes the canonical rendering of that same date. A missing or empty bound is kept. */
  lemma StartBoundMeaning(bound: Option<string>)
    ensures bound == None || bound == Some("") ==> NormalizeStart(bound) == Success(bound)
    ensures bound.Some? && bound.value != "" ==>
      var parsed := ParseYmd(BeforeFirstSpace(bound.value));
      && (NormalizeStart(bound).Success? <==> parsed.Success?)
      && (parsed.Failure? ==> NormalizeStart(bound) == Failure(ValueError))
      && (parsed.Success? ==> NormalizeStart(bound) == Success(Some(FormatDate(parsed.value)))
                              && ParseYmd(NormalizeStart(bound).value.value) == parsed)
  {
    if bound.Some? && bound.value != "" {
      var parsed := ParseYmd(BeforeFirstSpace(bound.value));
      if parsed.Success? {
        ParseFormatRoundTrip(parsed.value);
      }
    }
  }

  /** Normalizing a normalized start bound changes nothing. */
  lemma StartBoundIdempotent(bound: Option<string>)
    requires NormalizeStart(bound).Success?
    ensures NormalizeStart(NormalizeStart(bound).value) == NormalizeStart(bound)
  {
    if bound.Some? && bound.value != "" {
      var d := ParseYmd(BeforeFirstSpace(bound.value)).value;
      Canonical(d, FormatDate(d), "");
    }
  }

  lemma {:induction false} NoSpaceIsItsOwnPrefix(t: string)
    requires forall i :: 0 <= i < |t| ==> t[i] != ' '
    ensures BeforeFirstSpace(t) == t
  {
    if t != [] {
      NoSpaceIsItsOwnPrefix(t[1..]);
      assert [t[0]] + t[1..] == t;
    }
  }

  /** A given end bound is the day after the date part: one ordinal day later, with no
      valid date in between; it fails with ValueError when the date part does not parse
      and with OverflowError on 9999-12-31. */
  lemma EndBoundMeaning(bound: Option<string>)
    ensures bound == None || bound == Some("") ==> NormalizeEnd(bound) == Success(bound)
    ensures bound.Some? && bound.value != "" ==>
      var parsed := ParseYmd(BeforeFirstSpace(bound.value));
      && (parsed.Failure? ==> NormalizeEnd(bound) == Failure(ValueError))
      && (parsed.Success? && parsed.value == Date(MaxYear, 12, 31) ==> NormalizeEnd(bound) == Failure(OverflowError))
      && (parsed.Success? && parsed.value != Date(MaxYear, 12, 31) ==>
            NormalizeEnd(bound) == Success(Some(FormatDate(NextDay(parsed.value).value))) &&
            var e := ParseYmd(NormalizeEnd(bound).value.value);
            && e.Success?
            && DayNumber(e.value) == DayNumber(parsed.value) + 1
            && Before(parsed.value, e.value)
            && forall x :: ValidDate(x) ==> !(Before(parsed.value, x) && Before(x, e.value)))
  {
    if bound.Some? && bound.value != "" {
      var parsed := ParseYmd(BeforeFirstSpace(bound.value));
      if parsed.Success? && parsed.value != Date(MaxYear, 12, 31) {
        var next := NextDay(parsed.value).value;
        ParseFormatRoundTrip(next);
        NextDayNumber(parsed.value);
        forall x | ValidDate(x) ensures !(Before(parsed.value, x) && Before(x, next)) {
          NextDayIsSuccessor(parsed.value, x);
        }
      }
    }
  }

  lemma {:induction false} PrefixBeforeBlank(p: string, rest: string)
    requires forall i :: 0 <= i < |p| ==> p[i] != ' '
    ensures BeforeFirstSpace(p + " " + rest) == p
  {
    if p != [] {
      PrefixBeforeBlank(p[1..], rest);
      assert (p + " " + rest)[1..] == p[1..] + " " + rest;
      assert [p[0]] + p[1..] == p;
    }
  }

  /** A canonical date string parses back to its date and is the date part of itself
      followed by a blank and any time text. */
  lemma Canonical(d: Date, s: string, time: string)
    requires ValidDate(d) && s == FormatDate(d)
    ensures ParseYmd(s) == Success(d)
    ensures BeforeFirstSpace(s) == s
    ensures BeforeFirstSpace(s + " " + time) == s
  {
    ParseFormatRoundTrip(d);
    FormattedHasNoBlank(d);
    NoSpaceIsItsOwnPrefix(s);
    PrefixBeforeBlank(s, time);
  }

  /** The bounds computed from a canonical date string followed by optional time text. */
  lemma BoundsOfCanonical(d: Date, s: string, time: string)
    requires ValidDate(d) && s == FormatDate(d)
    ensures NormalizeStart(Some(s)) == Success(Some(s))
    ensures NormalizeStart(Some(s + " " + time)) == Success(Some(s))
    ensures NormalizeEnd(Some(s)) == NormalizeEnd(Some(s + " " + time))
    ensures NormalizeEnd(Some(s)) ==
      match NextDay(d) case Success(e) => Success(Some(FormatDate(e))) case Failure(err) => Failure(err)
  {
    Canonical(d, s, time);
  }

  /** What `strftime` prints for the dates of the worked cases below. */
  lemma FormattedExamples()
    ensures FormatDate(Date(2035, 1, 10)) == "2035-01-10"
    ensures FormatDate(Date(2035, 12, 31)) == "2035-12-31"
    ensures FormatDate(Date(2036, 1, 1)) == "2036-01-01"
    ensures FormatDate(Date(2024, 2, 29)) == "2024-02-29"
    ensures FormatDate(Date(2023, 3, 1)) == "2023-03-01"
  {
  }

  /** A time part after a blank is dropped from a start bound. */
  lemma StartBoundDropsTime(d: Date)
    requires d == Date(2035, 1, 10)
    ensures NormalizeStart(Some(FormatDate(d) + " " + "12:00:00")) == Success(Some(FormatDate(d)))
  {
    BoundsOfCanonical(d, FormatDate(d), "12:00:00");
  }

  /** One-digit month and day fields are accepted and re-emitted zero-padded. */
  lemma StartBoundPads(s: string)
    requires s == "2035-1-5"
    ensures NormalizeStart(Some(s)) == Success(Some("2035-01-05"))
  {
    assert ParseYmd(s) == Success(Date(2035, 1, 5)) by {
      assert s[5..] == "1-5";
      assert "1-5"[2..] == "5";
    }
    NoSpaceIsItsOwnPrefix(s);
  }

  /** The year rollover: the end bound 2035-12-31 becomes 2036-01-01. */
  lemma EndBoundYearRollover(d: Date, next: Date)
    requires d == Date(2035, 12, 31) && next == Date(2036, 1, 1)
    ensures NormalizeEnd(Some(FormatDate(d))) == Success(Some(FormatDate(next)))
  {
    BoundsOfCanonical(d, FormatDate(d), "");
  }

  /** 2024 is a leap year: February 28 is followed by February 29. */
  lemma EndBoundLeapYear(d: Date, next: Date)
    requires d == Date(2024, 2, 28) && next == Date(2024, 2, 29)
    ensures NormalizeEnd(Some(FormatDate(d))) == Success(Some(FormatDate(next)))
  {
    BoundsOfCanonical(d, FormatDate(d), "");
  }

  /** 2023 is not a leap year: February 28 is followed by March 1 (a time part is dropped). */
  lemma EndBoundCommonYear(d: Date, next: Date)
    requires d == Date(2023, 2, 28) && next == Date(2023, 3, 1)
    ensures NormalizeEnd(Some(FormatDate(d) + " " + "23:59")) == Success(Some(FormatDate(next)))
  {
    BoundsOfCanonical(d, FormatDate(d), "23:59");
  }

  /** 2100 is divisible by 100 but not by 400, so it is not a leap year. */
  lemma EndBoundCentury(d: Date, next: Date)
    requires d == Date(2100, 2, 28) && next == Date(2100, 3, 1)
    ensures NormalizeEnd(Some(FormatDate(d))) == Success(Some(FormatDate(next)))
  {
    assert !IsLeapYear(2100) && DaysInMonth(2100, 2) == 28;
    BoundsOfCanonical(d, FormatDate(d), "");
  }

  /** An ISO `T` separator is not a blank, so the time stays in the date part and
      `strptime` raises ValueError. */
  lemma StartBoundIsoSeparator(s: string)
    requires s == "2035-01-10T12:00"
    ensures NormalizeStart(Some(s)) == Failure(ValueError)
  {
    NoSpaceIsItsOwnPrefix(s);
    assert ParseYmd(s).Failure? by {
      if ParseYmd(s).Success? {
        ParsedCharacters(s, 10);
      }
    }
  }

  /** February 30 matches the pattern but is not a date: ValueError. */
  lemma StartBoundDayOutOfRange(s: string)
    requires s == "2035-02-30"
    ensures NormalizeStart(Some(s)) == Failure(ValueError)
  {
    assert ParseYmd(s).Failure? by {
      assert s[5..] == "02-30";
      assert "02-30"[3..] == "30";
    }
    NoSpaceIsItsOwnPrefix(s);
  }

  /** The day after the last representable date raises OverflowError. */
  lemma EndBoundOverflow(d: Date)
    requires d == Date(9999, 12, 31)
    ensures NormalizeEnd(Some(FormatDate(d))) == Failure(OverflowError)
  {
    BoundsOfCanonical(d, FormatDate(d), "");
  }
}
