/** Date-time values of the lease grammar's `dateRef` clause: the Gregorian
    validity that `datetime.strptime(..., "%Y/%m/%d %H:%M:%S")` enforces, the
    chronological order that `datetime` comparison uses, and the conversion
    from the matched date and time tokens (the `to_datetime` parse action of
    vmfusion/dhcpd_leases.py). */
module Timestamp {
  import opened Results
  import opened Text
  import opened Literals

  datatype DateTime = DateTime(year: nat, month: nat, day: nat, hour: nat, minute: nat, second: nat)

  /** The error `strptime` raises (a `ValueError`) for text that is not a valid
      `%Y/%m/%d %H:%M:%S` value. */
  datatype DateError = InvalidDate(date: string, time: string)

  predicate IsLeapYear(y: nat) { y % 4 == 0 && (y % 100 != 0 || y % 400 == 0) }

  function DaysInMonth(y: nat, m: nat): (n: nat)
    requires 1 <= m <= 12
    ensures 28 <= n <= 31
    ensures n == 29 <==> m == 2 && IsLeapYear(y)
  {
    if m == 2 then (if IsLeapYear(y) then 29 else 28)
    else if m == 4 || m == 6 || m == 9 || m == 11 then 30
    else 31
  }

  /** A value `datetime` can represent: year 1 to 9999, a real calendar day,
      and a time of day below 24:00:00 (no leap seconds). */
  predicate Valid(t: DateTime) {
    && 1 <= t.year <= 9999
    && 1 <= t.month <= 12
    && 1 <= t.day <= DaysInMonth(t.year, t.month)
    && t.hour < 24 && t.minute < 60 && t.second < 60
  }

  /** Chronological order of `datetime` values: lexicographic on
      (year, month, day, hour, minute, second). */
  predicate Before(a: DateTime, b: DateTime) {
    if a.year != b.year then a.year < b.year
    else if a.month != b.month then a.month < b.month
    else if a.day != b.day then a.day < b.day
    else if a.hour != b.hour then a.hour < b.hour
    else if a.minute != b.minute then a.minute < b.minute
    else a.second < b.second
  }

  lemma BeforeIrreflexive(a: DateTime)
    ensures !Before(a, a)
  {
  }

  lemma BeforeTransitive(a: DateTime, b: DateTime, c: DateTime)
    requires Before(a, b) && Before(b, c)
    ensures Before(a, c)
  {
  }

  /** Two distinct date-times are always ordered one way or the other. */
  lemma BeforeTotal(a: DateTime, b: DateTime)
    ensures a == b || Before(a, b) || Before(b, a)
  {
  }

  // ---------------------------------------------------------------------------
  // Text form

  /** `t.strftime("%Y/%m/%d")`. */
  function FormatDate(t: DateTime): string {
    Pad(t.year, 4) + "/" + Pad(t.month, 2) + "/" + Pad(t.day, 2)
  }

  /** `t.strftime("%H:%M:%S")`. */
  function FormatTime(t: DateTime): string {
    Pad(t.hour, 2) + ":" + Pad(t.minute, 2) + ":" + Pad(t.second, 2)
  }

  /** The `to_datetime` parse action: `strptime` of the matched date and time
      tokens. `%Y` reads exactly four digits, so a two-digit year always
      raises; otherwise the fields must form a valid date-time. */
  function ToDateTime(date: string, time: string): (r: Result<DateTime, DateError>)
    requires IsDateLiteral(date) && IsTimeLiteral(time)
    ensures r.Ok? ==> Valid(r.value) && FormatDate(r.value) == date && FormatTime(r.value) == time
    ensures r.Err? ==> r.error == InvalidDate(date, time)
  {
    var d := Split(date, '/');
    var c := Split(time, ':');
    assert IsTwoDigits(c[0]) && IsTwoDigits(c[1]) && IsTwoDigits(c[2]);
    if |d[0]| != 4 then Err(InvalidDate(date, time))
    else
      var t := DateTime(Value(d[0]), Value(d[1]), Value(d[2]), Value(c[0]), Value(c[1]), Value(c[2]));
      if Valid(t) then
        assert FormatDate(t) == date by {
          PadValue(d[0]); PadValue(d[1]); PadValue(d[2]);
          DateLiteralShape(date);
        }
        assert FormatTime(t) == time by {
          PadValue(c[0]); PadValue(c[1]); PadValue(c[2]);
          TimeLiteralShape(time);
        }
        Ok(t)
      else Err(InvalidDate(date, time))
  }

  /** Any date-time, written out, has the shape of the date and time grammar. */
  lemma FormatIsLiteral(t: DateTime)
    ensures IsDateLiteral(FormatDate(t)) && IsTimeLiteral(FormatTime(t))
  {
    DateLiteralOfGroups(Pad(t.year, 4), Pad(t.month, 2), Pad(t.day, 2));
    TimeLiteralOfGroups(Pad(t.hour, 2), Pad(t.minute, 2), Pad(t.second, 2));
  }

  /** Every valid date-time, written out, is read back as itself: together
      with the contract of `ToDateTime`, the conversion succeeds exactly on
      the text of valid date-times. */
  lemma ToDateTimeOfFormat(t: DateTime)
    requires Valid(t)
    ensures IsDateLiteral(FormatDate(t)) && IsTimeLiteral(FormatTime(t))
    ensures ToDateTime(FormatDate(t), FormatTime(t)) == Ok(t)
  {
    assert Pow10(4) == 10000 && Pow10(2) == 100;
    ValuePad(t.year, 4); ValuePad(t.month, 2); ValuePad(t.day, 2);
    ValuePad(t.hour, 2); ValuePad(t.minute, 2); ValuePad(t.second, 2);
    DateLiteralOfGroups(Pad(t.year, 4), Pad(t.month, 2), Pad(t.day, 2));
    TimeLiteralOfGroups(Pad(t.hour, 2), Pad(t.minute, 2), Pad(t.second, 2));
  }

  /** A two-digit year matches the grammar but never converts. */
  lemma TwoDigitYearRaises(date: string, time: string)
    requires IsDateLiteral(date) && IsTimeLiteral(time)
    requires |Split(date, '/')[0]| == 2
    ensures ToDateTime(date, time) == Err(InvalidDate(date, time))
  {
  }

  /** A month outside 1..12 matches the grammar but never converts. */
  lemma BadMonthRaises(date: string, time: string)
    requires IsDateLiteral(date) && IsTimeLiteral(time)
    requires Value(Split(date, '/')[1]) > 12
    ensures ToDateTime(date, time) == Err(InvalidDate(date, time))
  {
  }

  /** Month 13, day 40 matches the grammar but does not convert. */
  lemma OutOfRangeDateRaises()
    ensures IsDateLiteral("2024/13/40") && IsTimeLiteral("00:00:00")
    ensures ToDateTime("2024/13/40", "00:00:00").Err?
  {
    DateLiteralOfGroups("2024", "13", "40");
    TimeLiteralOfGroups("00", "00", "00");
    assert "2024" + "/" + "13" + "/" + "40" == "2024/13/40";
    assert "00" + ":" + "00" + ":" + "00" == "00:00:00";
    assert Value("13") == 13;
    BadMonthRaises("2024/13/40", "00:00:00");
  }
}
