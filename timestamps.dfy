/**
 * Log timestamps of the form `YYYY/MM/DD HH:MM:SS.ffffff`, read as a count
 * of microseconds on the proleptic Gregorian calendar (day 0 is 0001/01/01),
 * so that the difference of two readings is the time between them.
 */
module Timestamps {
  import opened Wrappers
  import opened Text

  datatype DateTime = DateTime(year: int, month: int, day: int, hour: int, minute: int, second: int, micro: int)

  predicate IsLeapYear(y: int) {
    y % 4 == 0 && (y % 100 != 0 || y % 400 == 0)
  }

  function DaysInMonth(y: int, m: int): int
    requires 1 <= m <= 12
  {
    if m == 2 then (if IsLeapYear(y) then 29 else 28)
    else if m == 4 || m == 6 || m == 9 || m == 11 then 30
    else 31
  }

  /** A date and time that a calendar datetime can hold (years 1 to 9999). */
  predicate Valid(t: DateTime) {
    && 1 <= t.year <= 9999
    && 1 <= t.month <= 12
    && 1 <= t.day <= DaysInMonth(t.year, t.month)
    && 0 <= t.hour < 24
    && 0 <= t.minute < 60
    && 0 <= t.second < 60
    && 0 <= t.micro < 1000000
  }

  /** Days from 0001/01/01 to January 1st of year `y`. */
  function DaysBeforeYear(y: int): (days: int)
    requires y >= 1
    ensures days >= 0
  {
    var p := y - 1;
    365 * p + p / 4 - p / 100 + p / 400
  }

  /** Days from January 1st to the first day of month `m` of year `y`. */
  function DaysBeforeMonth(y: int, m: int): int
    requires 1 <= m <= 12
  {
    [0, 31, 59, 90, 120, 151, 181, 212, 243, 273, 304, 334][m - 1]
      + if m > 2 && IsLeapYear(y) then 1 else 0
  }

  /** Days from 0001/01/01 to the date of `t`. */
  function DayNumber(t: DateTime): int
    requires Valid(t)
  {
    DaysBeforeYear(t.year) + DaysBeforeMonth(t.year, t.month) + t.day - 1
  }

  /** Microseconds from midnight to the time of `t`. */
  function TimeOfDay(t: DateTime): int {
    ((t.hour * 60 + t.minute) * 60 + t.second) * 1000000 + t.micro
  }

  const MicrosPerDay: int := 86400000000

  /** Microseconds from 0001/01/01 00:00:00.000000 to `t`. */
  function ToMicros(t: DateTime): int
    requires Valid(t)
  {
    DayNumber(t) * MicrosPerDay + TimeOfDay(t)
  }

  /** The last `width` decimal digits of `n`, zero-padded on the left. */
  function Padded(n: nat, width: nat): (s: string)
    ensures |s| == width && AllDigits(s)
  {
    if width == 0 then "" else Padded(n / 10, width - 1) + [DigitChar(n % 10)]
  }

  function Pow10(k: nat): nat {
    if k == 0 then 1 else 10 * Pow10(k - 1)
  }

  /** A timestamp as the log writes it. */
  function Format(t: DateTime): string
    requires Valid(t)
  {
    Padded(t.year, 4) + "/" + Padded(t.month, 2) + "/" + Padded(t.day, 2) + " "
      + Padded(t.hour, 2) + ":" + Padded(t.minute, 2) + ":" + Padded(t.second, 2) + "."
      + Padded(t.micro, 6)
  }

  /** The separators sit where the format puts them and every other character is a digit. */
  predicate WellShaped(s: string) {
    && |s| == 26
    && s[4] == '/' && s[7] == '/' && s[10] == ' ' && s[13] == ':' && s[16] == ':' && s[19] == '.'
    && AllDigits(s[0..4]) && AllDigits(s[5..7]) && AllDigits(s[8..10])
    && AllDigits(s[11..13]) && AllDigits(s[14..16]) && AllDigits(s[17..19]) && AllDigits(s[20..26])
  }

  /** The fields of a timestamp, when it is well shaped and names a valid date and time. */
  function Fields(s: string): (r: Option<DateTime>)
    ensures r.Some? ==> Valid(r.value)
  {
    if !WellShaped(s) then None
    else
      var t := DateTime(DigitsToNat(s[0..4]), DigitsToNat(s[5..7]), DigitsToNat(s[8..10]),
                        DigitsToNat(s[11..13]), DigitsToNat(s[14..16]), DigitsToNat(s[17..19]),
                        DigitsToNat(s[20..26]));
      if Valid(t) then Some(t) else None
  }

  /**
   * `datetime.strptime(s, "%Y/%m/%d %H:%M:%S.%f")`, as microseconds; None
   * where it raises. A string it accepts is the formatted form of the date
   * and time it reads, which is no earlier than 0001/01/01.
   */
  function ParseTimestamp(s: string): (r: Option<int>)
    ensures r.Some? ==> Fields(s).Some? && Format(Fields(s).value) == s
    ensures r.Some? ==> r.value == ToMicros(Fields(s).value) >= 0
  {
    match Fields(s)
    case Some(t) => FormatParse(s); Some(ToMicros(t))
    case None => None
  }

  lemma {:induction false} PaddedRoundTrip(n: nat, width: nat)
    requires n < Pow10(width)
    ensures DigitsToNat(Padded(n, width)) == n
  {
    if width > 0 {
      var s := Padded(n, width);
      PaddedRoundTrip(n / 10, width - 1);
      assert s[..|s| - 1] == Padded(n / 10, width - 1);
    }
  }

  lemma LastDigit(m: nat, d: nat)
    requires d < 10
    ensures (m * 10 + d) / 10 == m && (m * 10 + d) % 10 == d
  {
  }

  lemma {:induction false} DigitsRoundTripPadded(s: string)
    requires AllDigits(s)
    ensures Padded(DigitsToNat(s), |s|) == s
  {
    if s != [] {
      var n := |s| - 1;
      var m, d := DigitsToNat(s[..n]), DigitValue(s[n]);
      DigitsRoundTripPadded(s[..n]);
      LastDigit(m, d);
      assert Padded(DigitsToNat(s), |s|) == Padded(m, n) + [DigitChar(d)];
      assert s == s[..n] + [s[n]];
    }
  }

  /** Where each field and separator of a formatted timestamp sits. */
  lemma FormatLayout(t: DateTime)
    requires Valid(t)
    ensures var s := Format(t);
      && |s| == 26
      && s[4] == '/' && s[7] == '/' && s[10] == ' ' && s[13] == ':' && s[16] == ':' && s[19] == '.'
      && s[0..4] == Padded(t.year, 4) && s[5..7] == Padded(t.month, 2) && s[8..10] == Padded(t.day, 2)
      && s[11..13] == Padded(t.hour, 2) && s[14..16] == Padded(t.minute, 2) && s[17..19] == Padded(t.second, 2)
      && s[20..26] == Padded(t.micro, 6)
  {
    FormatDateLayout(t);
    FormatTimeLayout(t);
    FormatFractionLayout(t);
  }

  lemma FormatDateLayout(t: DateTime)
    requires Valid(t)
    ensures var s := Format(t);
      && |s| == 26 && s[4] == '/' && s[7] == '/' && s[10] == ' '
      && s[0..4] == Padded(t.year, 4) && s[5..7] == Padded(t.month, 2) && s[8..10] == Padded(t.day, 2)
  {
  }

  lemma FormatTimeLayout(t: DateTime)
    requires Valid(t)
    ensures var s := Format(t);
      && |s| == 26 && s[13] == ':' && s[16] == ':' && s[19] == '.'
      && s[11..13] == Padded(t.hour, 2) && s[14..16] == Padded(t.minute, 2) && s[17..19] == Padded(t.second, 2)
  {
  }

  lemma FormatFractionLayout(t: DateTime)
    requires Valid(t)
    ensures var s := Format(t);
      |s| == 26 && s[20..26] == Padded(t.micro, 6)
  {
  }

  /** Reading back a formatted timestamp gives the same date and time. */
  lemma ParseFormat(t: DateTime)
    requires Valid(t)
    ensures Fields(Format(t)) == Some(t)
    ensures ParseTimestamp(Format(t)) == Some(ToMicros(t))
  {
    FormatReadsBack(t);
  }

  lemma FormatReadsBack(t: DateTime)
    requires Valid(t)
    ensures var s := Format(t);
      && WellShaped(s)
      && DigitsToNat(s[0..4]) == t.year && DigitsToNat(s[5..7]) == t.month && DigitsToNat(s[8..10]) == t.day
      && DigitsToNat(s[11..13]) == t.hour && DigitsToNat(s[14..16]) == t.minute
      && DigitsToNat(s[17..19]) == t.second && DigitsToNat(s[20..26]) == t.micro
  {
    FormatLayout(t);
    DateReadsBack(t);
    TimeReadsBack(t);
  }

  lemma Pow10Widths()
    ensures Pow10(2) == 100 && Pow10(4) == 10000 && Pow10(6) == 1000000
  {
  }

  /** The padded date fields read back as the date. */
  lemma DateReadsBack(t: DateTime)
    requires Valid(t)
    ensures DigitsToNat(Padded(t.year, 4)) == t.year
    ensures DigitsToNat(Padded(t.month, 2)) == t.month
    ensures DigitsToNat(Padded(t.day, 2)) == t.day
  {
    Pow10Widths();
    PaddedRoundTrip(t.year, 4);
    PaddedRoundTrip(t.month, 2);
    PaddedRoundTrip(t.day, 2);
  }

  /** The padded time fields read back as the time. */
  lemma TimeReadsBack(t: DateTime)
    requires Valid(t)
    ensures DigitsToNat(Padded(t.hour, 2)) == t.hour
    ensures DigitsToNat(Padded(t.minute, 2)) == t.minute
    ensures DigitsToNat(Padded(t.second, 2)) == t.second
    ensures DigitsToNat(Padded(t.micro, 6)) == t.micro
  {
    Pow10Widths();
    PaddedRoundTrip(t.hour, 2);
    PaddedRoundTrip(t.minute, 2);
    PaddedRoundTrip(t.second, 2);
    PaddedRoundTrip(t.micro, 6);
  }

  /** Every string the parser accepts is the formatted form of what it read. */
  lemma FormatParse(s: string)
    requires Fields(s).Some?
    ensures Format(Fields(s).value) == s
  {
    var t := Fields(s).value;
    DigitsRoundTripPadded(s[0..4]);
    DigitsRoundTripPadded(s[5..7]);
    DigitsRoundTripPadded(s[8..10]);
    DigitsRoundTripPadded(s[11..13]);
    DigitsRoundTripPadded(s[14..16]);
    DigitsRoundTripPadded(s[17..19]);
    DigitsRoundTripPadded(s[20..26]);
    FormatFromSlices(s, t);
  }

  /** A string laid out like a formatted timestamp, slice by slice, is that formatted timestamp. */
  lemma FormatFromSlices(s: string, t: DateTime)
    requires Valid(t)
    requires |s| == 26
    requires s[4] == '/' && s[7] == '/' && s[10] == ' ' && s[13] == ':' && s[16] == ':' && s[19] == '.'
    requires s[0..4] == Padded(t.year, 4) && s[5..7] == Padded(t.month, 2) && s[8..10] == Padded(t.day, 2)
    requires s[11..13] == Padded(t.hour, 2) && s[14..16] == Padded(t.minute, 2) && s[17..19] == Padded(t.second, 2)
    requires s[20..26] == Padded(t.micro, 6)
    ensures Format(t) == s
  {
    FormatLayout(t);
    var f := Format(t);
    forall i | 0 <= i < 26 ensures f[i] == s[i] {
      if i < 4 {
        assert f[0..4][i] == s[0..4][i];
      } else if 5 <= i < 7 {
        assert f[5..7][i - 5] == s[5..7][i - 5];
      } else if 8 <= i < 10 {
        assert f[8..10][i - 8] == s[8..10][i - 8];
      } else if 11 <= i < 13 {
        assert f[11..13][i - 11] == s[11..13][i - 11];
      } else if 14 <= i < 16 {
        assert f[14..16][i - 14] == s[14..16][i - 14];
      } else if 17 <= i < 19 {
        assert f[17..19][i - 17] == s[17..19][i - 17];
      } else if 20 <= i {
        assert f[20..26][i - 20] == s[20..26][i - 20];
      }
    }
  }


  /** `a` is not later than `b`: its fields, compared from the year down, are not larger. */
  predicate NotLater(a: DateTime, b: DateTime) {
    || a.year < b.year
    || (a.year == b.year && a.month < b.month)
    || (a.year == b.year && a.month == b.month && a.day < b.day)
    || (a.year == b.year && a.month == b.month && a.day == b.day && TimeNotLater(a, b))
  }

  predicate TimeNotLater(a: DateTime, b: DateTime) {
    || a.hour < b.hour
    || (a.hour == b.hour && a.minute < b.minute)
    || (a.hour == b.hour && a.minute == b.minute && a.second < b.second)
    || (a.hour == b.hour && a.minute == b.minute && a.second == b.second && a.micro <= b.micro)
  }

  function YearDays(y: int): int {
    if IsLeapYear(y) then 366 else 365
  }

  /** Consecutive New Year's days are a year's length apart. */
  lemma YearLength(y: int)
    requires y >= 1
    ensures DaysBeforeYear(y + 1) == DaysBeforeYear(y) + YearDays(y)
  {
    LeapStep(y);
    CenturyStep(y);
    QuadricentennialStep(y);
    DivisorChain(y);
    assert DaysBeforeYear(y + 1) == 365 * y + y / 4 - y / 100 + y / 400;
    assert DaysBeforeYear(y) == 365 * (y - 1) + (y - 1) / 4 - (y - 1) / 100 + (y - 1) / 400;
  }

  /** Every fourth century is a century, and every century a leap-year candidate. */
  lemma DivisorChain(y: int)
    ensures y % 400 == 0 ==> y % 100 == 0
    ensures y % 100 == 0 ==> y % 4 == 0
  {
  }

  /** Multiples of 4 up to `y`: one more than up to `y - 1` exactly when `y` is one. */
  lemma LeapStep(y: int)
    requires y >= 1
    ensures y / 4 == (y - 1) / 4 + (if y % 4 == 0 then 1 else 0)
  {
  }

  lemma CenturyStep(y: int)
    requires y >= 1
    ensures y / 100 == (y - 1) / 100 + (if y % 100 == 0 then 1 else 0)
  {
  }

  lemma QuadricentennialStep(y: int)
    requires y >= 1
    ensures y / 400 == (y - 1) / 400 + (if y % 400 == 0 then 1 else 0)
  {
  }

  lemma {:induction false} YearsBefore(y1: int, y2: int)
    requires 1 <= y1 < y2
    ensures DaysBeforeYear(y1) + YearDays(y1) <= DaysBeforeYear(y2)
    decreases y2 - y1
  {
    YearLength(y1);
    if y1 + 1 < y2 {
      YearsBefore(y1 + 1, y2);
    }
  }

  /** A month ends no later than the next one starts, and the last one ends with the year. */
  lemma MonthsBefore(y: int, m1: int, m2: int)
    requires 1 <= m1 <= 12 && m1 < m2 <= 13
    ensures DaysBeforeMonth(y, m1) + DaysInMonth(y, m1) <= (if m2 == 13 then YearDays(y) else DaysBeforeMonth(y, m2))
  {
  }

  /** Earlier dates have smaller day numbers. */
  lemma DayOrder(a: DateTime, b: DateTime)
    requires Valid(a) && Valid(b)
    requires || a.year < b.year
             || (a.year == b.year && a.month < b.month)
             || (a.year == b.year && a.month == b.month && a.day < b.day)
    ensures DayNumber(a) < DayNumber(b)
  {
    if a.year < b.year {
      MonthsBefore(a.year, a.month, 13);
      YearsBefore(a.year, b.year);
    } else if a.month < b.month {
      MonthsBefore(a.year, a.month, b.month);
    }
  }

  lemma TimeOfDayOrder(a: DateTime, b: DateTime)
    requires Valid(a) && Valid(b)
    ensures 0 <= TimeOfDay(a) < MicrosPerDay
    ensures TimeOfDay(a) <= TimeOfDay(b) <==> TimeNotLater(a, b)
  {
  }

  /**
   * The microsecond count orders timestamps as the calendar does, so the
   * difference of two readings is non-negative exactly when the second is
   * not earlier than the first.
   */
  lemma MicrosOrder(a: DateTime, b: DateTime)
    requires Valid(a) && Valid(b)
    ensures ToMicros(a) <= ToMicros(b) <==> NotLater(a, b)
  {
    TimeOfDayOrder(a, b);
    TimeOfDayOrder(b, a);
    if a.year == b.year && a.month == b.month && a.day == b.day {
      assert DayNumber(a) == DayNumber(b);
    } else if NotLater(a, b) {
      DayOrder(a, b);
    } else {
      DayOrder(b, a);
    }
  }
}
