/**
  Conversion of a "date time" text in the fixed format "%Y-%m-%d %H:%M:%S" to
  integer seconds since 1970-01-01 00:00:00 UTC, as the plugin obtains it from
  Ruby's Time.strptime(text, format).to_i.

  Ruby first parses the text with Date._strptime, which rejects a month
  outside 1..12, a day outside 1..31, an hour outside 0..24, a minute outside
  0..59 and a second outside 0..60 (the call then raises ArgumentError); it
  then builds the time with Time.local, which rejects hour 24 unless minute
  and second are 0, and rolls a day past the end of its month (February 30,
  April 31) into the next month. The text is read as local time; the zone is
  a fixed offset in seconds east of UTC.
 */
module CivilTime {
  import opened Wrappers

  /** Why Time.strptime raised ArgumentError. */
  datatype TimeError =
    | InvalidFormat   // Date._strptime returned nil: "invalid date or strptime format"
    | OutOfRange      // Time.local refused the fields: "argument out of range"

  predicate IsDigit(ch: char) { '0' <= ch <= '9' }

  function DigitValue(ch: char): (n: nat)
    requires IsDigit(ch)
    ensures n < 10
  {
    ch as int - '0' as int
  }

  /** The value of the two decimal digits s[i], s[i + 1]. */
  function TwoDigits(s: string, i: nat): (n: nat)
    requires i + 2 <= |s| && IsDigit(s[i]) && IsDigit(s[i + 1])
    ensures n < 100
  {
    10 * DigitValue(s[i]) + DigitValue(s[i + 1])
  }

  /** The shape "dddd-dd-dd dd:dd:dd" of the texts the plugin hands to strptime. */
  predicate FixedShape(text: string) {
    && |text| == 19
    && IsDigit(text[0]) && IsDigit(text[1]) && IsDigit(text[2]) && IsDigit(text[3])
    && text[4] == '-' && IsDigit(text[5]) && IsDigit(text[6])
    && text[7] == '-' && IsDigit(text[8]) && IsDigit(text[9])
    && text[10] == ' ' && IsDigit(text[11]) && IsDigit(text[12])
    && text[13] == ':' && IsDigit(text[14]) && IsDigit(text[15])
    && text[16] == ':' && IsDigit(text[17]) && IsDigit(text[18])
  }

  predicate Leap(y: int) {
    y % 4 == 0 && (y % 100 != 0 || y % 400 == 0)
  }

  function YearLength(y: int): nat {
    if Leap(y) then 366 else 365
  }

  function DaysInMonth(y: int, m: int): nat
    requires 1 <= m <= 12
  {
    if m == 2 then (if Leap(y) then 29 else 28)
    else if m == 4 || m == 6 || m == 9 || m == 11 then 30
    else 31
  }

  /** Day number (days since 1970-01-01) of March 1 of year y of the proleptic Gregorian calendar. */
  function MarchFirst(y: int): int {
    365 * y + y / 4 - y / 100 + y / 400 - 719468
  }

  /**
    Day number of day d of month m of year y, counting March as the first month
    of the year so that February, with its leap day, comes last. The result is
    linear in d, which is how a day past the end of a month rolls over.
   */
  function DaysFromCivil(y: int, m: int, d: int): int
    requires 1 <= m <= 12
  {
    var yy := if m <= 2 then y - 1 else y;
    var mp := if m > 2 then m - 3 else m + 9;
    MarchFirst(yy) + (153 * mp + 2) / 5 + d - 1
  }

  /** Seconds since the epoch of the given local civil time, before the zone offset. */
  function LocalSeconds(y: int, mo: int, d: int, h: int, mi: int, s: int): int
    requires 1 <= mo <= 12
  {
    DaysFromCivil(y, mo, d) * 86400 + h * 3600 + mi * 60 + s
  }

  /**
    Time.strptime(text, "%Y-%m-%d %H:%M:%S").to_i under a zone with the given
    offset, for texts of the fixed shape.
   */
  function Strptime(text: string, utcOffset: int): (r: Result<int, TimeError>)
    ensures !FixedShape(text) ==> r == Failure(InvalidFormat)
  {
    if !FixedShape(text) then Failure(InvalidFormat)
    else
      var y := 100 * TwoDigits(text, 0) + TwoDigits(text, 2);
      var mo := TwoDigits(text, 5);
      var d := TwoDigits(text, 8);
      var h := TwoDigits(text, 11);
      var mi := TwoDigits(text, 14);
      var s := TwoDigits(text, 17);
      if !(1 <= mo <= 12 && 1 <= d <= 31 && h <= 24 && mi <= 59 && s <= 60) then Failure(InvalidFormat)
      else if h == 24 && (mi > 0 || s > 0) then Failure(OutOfRange)
      else Success(LocalSeconds(y, mo, d, h, mi, s) - utcOffset)
  }

  // ---------------------------------------------------------------------
  // A reference calendar: days counted year by year and month by month
  // from 1970-01-01, with the Gregorian month lengths.
  // ---------------------------------------------------------------------

  function DaysBeforeYear(y: int): int
    decreases if y >= 1970 then y - 1970 else 1970 - y
  {
    if y == 1970 then 0
    else if y > 1970 then DaysBeforeYear(y - 1) + YearLength(y - 1)
    else DaysBeforeYear(y + 1) - YearLength(y)
  }

  function DaysBeforeMonth(y: int, m: int): nat
    requires 1 <= m <= 12
  {
    if m == 1 then 0 else DaysBeforeMonth(y, m - 1) + DaysInMonth(y, m - 1)
  }

  function ReferenceDays(y: int, m: int, d: int): int
    requires 1 <= m <= 12
  {
    DaysBeforeYear(y) + DaysBeforeMonth(y, m) + d - 1
  }

  /** floor((x + 1) / k) exceeds floor(x / k) exactly when k divides x + 1. */
  lemma DivStep(x: int, k: int)
    requires k > 0
    ensures (x + 1) / k == x / k + (if (x + 1) % k == 0 then 1 else 0)
  {
    var q, r := x / k, x % k;
    assert x == k * q + r && 0 <= r < k;
    if r == k - 1 {
      assert x + 1 == k * (q + 1);
      DivUnique(x + 1, k, q + 1, 0);
    } else {
      assert x + 1 == k * q + (r + 1);
      DivUnique(x + 1, k, q, r + 1);
    }
  }

  lemma DivUnique(a: int, k: int, q: int, r: int)
    requires k > 0 && a == k * q + r && 0 <= r < k
    ensures a / k == q && a % k == r
  {
    var q', r' := a / k, a % k;
    assert a == k * q' + r' && 0 <= r' < k;
    if q' > q {
      assert k * q' >= k * (q + 1) by { MulMono(k, q + 1, q'); }
    } else if q' < q {
      assert k * q >= k * (q' + 1) by { MulMono(k, q' + 1, q); }
    }
  }

  lemma MulMono(k: int, a: int, b: int)
    requires k > 0 && a <= b
    ensures k * a <= k * b
  {
    assert k * b - k * a == k * (b - a);
  }

  /** Consecutive March firsts are one year apart: 365 days, or 366 when the year of that February is a leap year. */
  lemma MarchFirstStep(y: int)
    ensures MarchFirst(y + 1) == MarchFirst(y) + YearLength(y + 1)
  {
    DivStep(y, 4);
    DivStep(y, 100);
    DivStep(y, 400);
    var x := y + 1;
    if x % 400 == 0 {
      assert x % 100 == 0 && x % 4 == 0;
    } else if x % 100 == 0 {
      assert x % 4 == 0;
    }
  }

  /** One calendar year separates January 1 of consecutive years. */
  lemma YearStep(y: int)
    ensures DaysFromCivil(y + 1, 1, 1) == DaysFromCivil(y, 1, 1) + YearLength(y)
  {
    MarchFirstStep(y - 1);
  }

  /** The first days of consecutive months are the month's length apart. */
  lemma MonthStep(y: int, m: int)
    requires 1 <= m < 12
    ensures DaysFromCivil(y, m + 1, 1) == DaysFromCivil(y, m, 1) + DaysInMonth(y, m)
  {
    if m == 2 {
      MarchFirstStep(y - 1);
    }
  }

  lemma {:induction false} JanuaryFirstIsReference(y: int)
    ensures DaysFromCivil(y, 1, 1) == DaysBeforeYear(y)
    decreases if y >= 1970 then y - 1970 else 1970 - y
  {
    if y > 1970 {
      JanuaryFirstIsReference(y - 1);
      YearStep(y - 1);
    } else if y < 1970 {
      JanuaryFirstIsReference(y + 1);
      YearStep(y);
    }
  }

  lemma {:induction false} MonthFirstIsReference(y: int, m: int)
    requires 1 <= m <= 12
    ensures DaysFromCivil(y, m, 1) == DaysFromCivil(y, 1, 1) + DaysBeforeMonth(y, m)
  {
    if m > 1 {
      MonthFirstIsReference(y, m - 1);
      MonthStep(y, m - 1);
    }
  }

  /** The closed-form day number agrees with the month-by-month, year-by-year count from 1970. */
  lemma CivilMatchesReference(y: int, m: int, d: int)
    requires 1 <= m <= 12
    ensures DaysFromCivil(y, m, d) == ReferenceDays(y, m, d)
  {
    JanuaryFirstIsReference(y);
    MonthFirstIsReference(y, m);
  }

  /** A day past the end of its month is the corresponding day of the next month (Time.local's roll-over). */
  lemma DayOverflowRollsOver(y: int, m: int, d: int)
    requires 1 <= m < 12 && d > DaysInMonth(y, m)
    ensures DaysFromCivil(y, m, d) == DaysFromCivil(y, m + 1, d - DaysInMonth(y, m))
  {
    MonthStep(y, m);
  }

  /** The zone offset shifts the result and nothing else. */
  lemma StrptimeOffset(text: string, utcOffset: int)
    ensures Strptime(text, utcOffset) ==
      match Strptime(text, 0)
      case Success(t) => Success(t - utcOffset)
      case Failure(e) => Failure(e)
  {
  }

  /**
    On the fixed shape, strptime succeeds exactly when the fields pass Ruby's
    range checks, and then gives the reference calendar's seconds for the
    local time, minus the zone offset.
   */
  lemma StrptimeAgreesWithCalendar(text: string, utcOffset: int)
    requires FixedShape(text)
    ensures
      var y := 100 * TwoDigits(text, 0) + TwoDigits(text, 2);
      var mo, d := TwoDigits(text, 5), TwoDigits(text, 8);
      var h, mi, s := TwoDigits(text, 11), TwoDigits(text, 14), TwoDigits(text, 17);
      var accepted := 1 <= mo <= 12 && 1 <= d <= 31 && h <= 24 && mi <= 59 && s <= 60 && (h == 24 ==> mi == 0 && s == 0);
      && (Strptime(text, utcOffset).Success? <==> accepted)
      && (accepted ==>
            Strptime(text, utcOffset).value == ReferenceDays(y, mo, d) * 86400 + h * 3600 + mi * 60 + s - utcOffset)
  {
    var y := 100 * TwoDigits(text, 0) + TwoDigits(text, 2);
    var mo, d := TwoDigits(text, 5), TwoDigits(text, 8);
    if 1 <= mo <= 12 {
      CivilMatchesReference(y, mo, d);
    }
  }

  // ---------------------------------------------------------------------
  // Formatting: the "%Y-%m-%d %H:%M:%S" text of given fields, which is what
  // the pattern's date and time groups capture.
  // ---------------------------------------------------------------------

  function DigitChar(n: nat): (c: char)
    requires n < 10
    ensures IsDigit(c) && DigitValue(c) == n
  {
    ('0' as int + n) as char
  }

  /** Two decimal digits with a leading zero, as %m, %d, %H, %M and %S print them. */
  function Pad2(n: nat): (t: string)
    requires n < 100
    ensures |t| == 2 && IsDigit(t[0]) && IsDigit(t[1]) && TwoDigits(t, 0) == n
  {
    [DigitChar(n / 10), DigitChar(n % 10)]
  }

  function TimeText(y: nat, mo: nat, d: nat, h: nat, mi: nat, s: nat): string
    requires y < 10000 && mo < 100 && d < 100 && h < 100 && mi < 100 && s < 100
  {
    Pad2(y / 100) + Pad2(y % 100) + "-" + Pad2(mo) + "-" + Pad2(d) + " " + Pad2(h) + ":" + Pad2(mi) + ":" + Pad2(s)
  }

  /** Formatted text has the fixed shape, and reading its digits back gives the fields. */
  lemma TimeTextFields(y: nat, mo: nat, d: nat, h: nat, mi: nat, s: nat)
    requires y < 10000 && mo < 100 && d < 100 && h < 100 && mi < 100 && s < 100
    ensures var t := TimeText(y, mo, d, h, mi, s);
      && FixedShape(t)
      && 100 * TwoDigits(t, 0) + TwoDigits(t, 2) == y
      && TwoDigits(t, 5) == mo && TwoDigits(t, 8) == d
      && TwoDigits(t, 11) == h && TwoDigits(t, 14) == mi && TwoDigits(t, 17) == s
  {
    var t := TimeText(y, mo, d, h, mi, s);
    var a, b, c, e, f, g, k := Pad2(y / 100), Pad2(y % 100), Pad2(mo), Pad2(d), Pad2(h), Pad2(mi), Pad2(s);
    assert t == a + b + "-" + c + "-" + e + " " + f + ":" + g + ":" + k;
    assert t[0] == a[0] && t[1] == a[1] && t[2] == b[0] && t[3] == b[1];
    assert t[5] == c[0] && t[6] == c[1] && t[8] == e[0] && t[9] == e[1];
    assert t[11] == f[0] && t[12] == f[1] && t[14] == g[0] && t[15] == g[1];
    assert t[17] == k[0] && t[18] == k[1];
  }

  /** 1970-01-01 00:00:00 in UTC is the epoch. */
  lemma EpochOrigin()
    ensures Strptime(TimeText(1970, 1, 1, 0, 0, 0), 0) == Success(0)
  {
    TimeTextFields(1970, 1, 1, 0, 0, 0);
  }

  /** The date and time of the sample log line. */
  lemma ExampleText()
    ensures TimeText(2015, 3, 2, 10, 22, 33) == "2015-03-02 10:22:33"
  {
  }

  /** The timestamp of the sample log line. */
  lemma ExampleTimestamp()
    ensures Strptime(TimeText(2015, 3, 2, 10, 22, 33), 0) == Success(1425291753)
  {
    TimeTextFields(2015, 3, 2, 10, 22, 33);
  }

  /** Month 13 passes the pattern's `[01]\d` but not strptime. */
  lemma MonthThirteenRejected()
    ensures Strptime(TimeText(2015, 13, 2, 10, 22, 33), 0) == Failure(InvalidFormat)
  {
    TimeTextFields(2015, 13, 2, 10, 22, 33);
  }

  lemma HourTwentyFourValue()
    ensures Strptime(TimeText(2015, 3, 2, 24, 0, 0), 0) == Success(1425340800)
  {
    TimeTextFields(2015, 3, 2, 24, 0, 0);
  }

  lemma NextMidnightValue()
    ensures Strptime(TimeText(2015, 3, 3, 0, 0, 0), 0) == Success(1425340800)
  {
    TimeTextFields(2015, 3, 3, 0, 0, 0);
  }

  /** Hour 24 is accepted as 24:00:00, which is midnight of the next day. */
  lemma HourTwentyFourIsMidnight()
    ensures Strptime(TimeText(2015, 3, 2, 24, 0, 0), 0) == Success(1425340800)
    ensures Strptime(TimeText(2015, 3, 2, 24, 0, 0), 0) == Strptime(TimeText(2015, 3, 3, 0, 0, 0), 0)
  {
    HourTwentyFourValue();
    NextMidnightValue();
  }

  /** Hour 24 with a second past midnight is refused. */
  lemma HourTwentyFourOutOfRange()
    ensures Strptime(TimeText(2015, 3, 2, 24, 0, 1), 0) == Failure(OutOfRange)
  {
    TimeTextFields(2015, 3, 2, 24, 0, 1);
  }
}
