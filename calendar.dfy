/**
 * Calendar dates as chrono's `NaiveDate` represents them: the proleptic
 * Gregorian calendar, with a year 0 and negative years.  Covers the two
 * pieces of date arithmetic the tool uses (one day forward, one day back),
 * a day count that measures them, and the `%Y-%m-%d` rendering.
 */
module Calendar {
  import opened Wrappers
  import Decimal

  datatype Date = Date(year: int, month: int, day: int)

  predicate IsLeapYear(y: int) {
    y % 4 == 0 && (y % 100 != 0 || y % 400 == 0)
  }

  function DaysInMonth(y: int, m: int): (n: int)
    requires 1 <= m <= 12
    ensures 28 <= n <= 31
  {
    if m == 2 then (if IsLeapYear(y) then 29 else 28)
    else if m == 4 || m == 6 || m == 9 || m == 11 then 30
    else 31
  }

  predicate Valid(d: Date) {
    1 <= d.month <= 12 && 1 <= d.day <= DaysInMonth(d.year, d.month)
  }

  /** The following calendar day. */
  function NextDay(d: Date): (r: Date)
    requires Valid(d)
    ensures Valid(r)
  {
    if d.day < DaysInMonth(d.year, d.month) then Date(d.year, d.month, d.day + 1)
    else if d.month < 12 then Date(d.year, d.month + 1, 1)
    else Date(d.year + 1, 1, 1)
  }

  /** The preceding calendar day. */
  function PrevDay(d: Date): (r: Date)
    requires Valid(d)
    ensures Valid(r)
  {
    if d.day > 1 then Date(d.year, d.month, d.day - 1)
    else if d.month > 1 then Date(d.year, d.month - 1, DaysInMonth(d.year, d.month - 1))
    else Date(d.year - 1, 12, 31)
  }

  /** `d - Duration::days(k)`: the date `k` days before `d`. */
  function DaysBefore(d: Date, k: nat): (r: Date)
    requires Valid(d)
    ensures Valid(r)
  {
    if k == 0 then d else PrevDay(DaysBefore(d, k - 1))
  }

  // A day count, independent of PrevDay and NextDay, against which they are measured:
  // day 0 is 0000-01-01.

  /** Days in the years before `y`, counted from year 0 (negative for negative years). */
  function DaysBeforeYear(y: int): int {
    365 * y + (y + 3) / 4 - (y + 99) / 100 + (y + 399) / 400
  }

  /** Days in the months of year `y` before month `m`. */
  function DaysBeforeMonth(y: int, m: int): int
    requires 1 <= m <= 12
  {
    var common := [0, 31, 59, 90, 120, 151, 181, 212, 243, 273, 304, 334][m - 1];
    if m > 2 && IsLeapYear(y) then common + 1 else common
  }

  function DayNumber(d: Date): int
    requires Valid(d)
  {
    DaysBeforeYear(d.year) + DaysBeforeMonth(d.year, d.month) + d.day - 1
  }

  lemma YearLength(y: int)
    ensures DaysBeforeYear(y + 1) - DaysBeforeYear(y) == if IsLeapYear(y) then 366 else 365
  {
    LeapCount4(y);
    LeapCount100(y);
    LeapCount400(y);
    MultiplesNest(y);
    var step4 := (y + 4) / 4 - (y + 3) / 4;
    var step100 := (y + 100) / 100 - (y + 99) / 100;
    var step400 := (y + 400) / 400 - (y + 399) / 400;
    assert DaysBeforeYear(y + 1) - DaysBeforeYear(y) == 365 + step4 - step100 + step400;
  }

  // A multiple of 400 is one of 100, and a multiple of 100 is one of 4.
  lemma MultiplesNest(y: int)
    ensures y % 400 == 0 ==> y % 100 == 0
    ensures y % 100 == 0 ==> y % 4 == 0
  {
    if y % 400 == 0 {
      var q := y / 400;
      assert y == 400 * q;
      assert y / 100 == 4 * q;
    }
    if y % 100 == 0 {
      var q := y / 100;
      assert y == 100 * q;
      assert y / 4 == 25 * q;
    }
  }

  // The three leap-year corrections each step up by one exactly at a multiple
  // of 4, 100 and 400 respectively.

  lemma LeapCount4(y: int)
    ensures (y + 4) / 4 - (y + 3) / 4 == if y % 4 == 0 then 1 else 0
  {
  }

  lemma LeapCount100(y: int)
    ensures (y + 100) / 100 - (y + 99) / 100 == if y % 100 == 0 then 1 else 0
  {
  }

  lemma LeapCount400(y: int)
    ensures (y + 400) / 400 - (y + 399) / 400 == if y % 400 == 0 then 1 else 0
  {
  }

  lemma MonthLength(y: int, m: int)
    requires 1 <= m < 12
    ensures DaysBeforeMonth(y, m + 1) == DaysBeforeMonth(y, m) + DaysInMonth(y, m)
  {
  }

  /** PrevDay steps back exactly one day on the day count. */
  lemma PrevDayNumber(d: Date)
    requires Valid(d)
    ensures DayNumber(PrevDay(d)) == DayNumber(d) - 1
  {
    if d.day == 1 {
      if d.month > 1 {
        MonthLength(d.year, d.month - 1);
      } else {
        YearLength(d.year - 1);
      }
    }
  }

  /** NextDay steps forward exactly one day on the day count. */
  lemma NextDayNumber(d: Date)
    requires Valid(d)
    ensures DayNumber(NextDay(d)) == DayNumber(d) + 1
  {
    if d.day == DaysInMonth(d.year, d.month) {
      if d.month < 12 {
        MonthLength(d.year, d.month);
      } else {
        YearLength(d.year);
      }
    }
  }

  lemma PrevDayUndoesNextDay(d: Date)
    requires Valid(d)
    ensures PrevDay(NextDay(d)) == d && NextDay(PrevDay(d)) == d
  {
  }

  /** The date `k` days before `d` lies exactly `k` days earlier on the day count. */
  lemma {:induction false} DaysBeforeNumber(d: Date, k: nat)
    requires Valid(d)
    ensures DayNumber(DaysBefore(d, k)) == DayNumber(d) - k
  {
    if k > 0 {
      DaysBeforeNumber(d, k - 1);
      PrevDayNumber(DaysBefore(d, k - 1));
    }
  }

  // ISO 8601 calendar date, extended format, as chrono's `%Y-%m-%d` writes it: a
  // four-digit zero-padded year for years 0 to 9999, and outside that range an
  // explicit sign followed by at least four digits.

  function FormatYear(y: int): (s: string)
    ensures |s| >= 4
    ensures 0 <= y <= 9999 ==> |s| == 4 && Decimal.AllDigits(s)
    ensures y < 0 ==> s[0] == '-' && Decimal.AllDigits(s[1..])
    ensures y > 9999 ==> s[0] == '+' && Decimal.AllDigits(s[1..])
  {
    if 0 <= y <= 9999 then
      assert Decimal.Pow10(4) == 10000;
      Decimal.PaddedLength(y, 4);
      Decimal.Padded(y, 4)
    else if y < 0 then "-" + Decimal.Padded(-y, 4)
    else "+" + Decimal.Padded(y, 4)
  }

  function Format(d: Date): (s: string)
    requires Valid(d)
  {
    FormatYear(d.year) + "-" + Decimal.Padded(d.month, 2) + "-" + Decimal.Padded(d.day, 2)
  }

  function ParseYear(s: string): Option<int> {
    if s != [] && s[0] == '-' then
      match Decimal.ParseNat(s[1..])
      case Some(n) => Some(-(n as int))
      case None => None
    else if s != [] && s[0] == '+' then
      match Decimal.ParseNat(s[1..])
      case Some(n) => Some(n)
      case None => None
    else Decimal.ParseNat(s)
  }

  /** Reads a `%Y-%m-%d` rendering back; only valid dates are accepted. */
  function Parse(s: string): (r: Option<Date>)
    ensures r.Some? ==> Valid(r.value)
  {
    if |s| < 7 || s[|s| - 6] != '-' || s[|s| - 3] != '-' then None
    else
      match (ParseYear(s[..|s| - 6]), Decimal.ParseNat(s[|s| - 5..|s| - 3]), Decimal.ParseNat(s[|s| - 2..]))
      case (Some(y), Some(m), Some(dd)) =>
        if Valid(Date(y, m, dd)) then Some(Date(y, m, dd)) else None
      case _ => None
  }

  lemma MonthAndDayLength(d: Date)
    requires Valid(d)
    ensures |Decimal.Padded(d.month, 2)| == 2 && |Decimal.Padded(d.day, 2)| == 2
  {
    assert Decimal.Pow10(2) == 100;
    Decimal.PaddedLength(d.month, 2);
    Decimal.PaddedLength(d.day, 2);
  }

  lemma ParseFormatYear(y: int)
    ensures ParseYear(FormatYear(y)) == Some(y)
  {
    if 0 <= y <= 9999 {
      Decimal.ParsePadded(y, 4);
    } else if y < 0 {
      Decimal.ParsePadded(-y, 4);
      assert ("-" + Decimal.Padded(-y, 4))[1..] == Decimal.Padded(-y, 4);
    } else {
      Decimal.ParsePadded(y, 4);
      assert ("+" + Decimal.Padded(y, 4))[1..] == Decimal.Padded(y, 4);
    }
  }

  // Where `Parse` cuts a year, month and day joined by dashes.
  lemma SplitJoined(ys: string, ms: string, ds: string)
    requires |ys| >= 1 && |ms| == 2 && |ds| == 2
    ensures var s := ys + "-" + ms + "-" + ds;
      |s| >= 7 && s[|s| - 6] == '-' && s[|s| - 3] == '-' &&
      s[..|s| - 6] == ys && s[|s| - 5..|s| - 3] == ms && s[|s| - 2..] == ds
  {
    var s := ys + "-" + ms + "-" + ds;
    assert s[..|s| - 6] == ys;
    assert s[|s| - 5..|s| - 3] == ms;
    assert s[|s| - 2..] == ds;
  }

  /** Every valid date survives a format/parse round trip. */
  lemma ParseFormat(d: Date)
    requires Valid(d)
    ensures Parse(Format(d)) == Some(d)
  {
    var s := Format(d);
    var ys, ms, ds := FormatYear(d.year), Decimal.Padded(d.month, 2), Decimal.Padded(d.day, 2);
    MonthAndDayLength(d);
    SplitJoined(ys, ms, ds);
    ParseFormatYear(d.year);
    Decimal.ParsePadded(d.month, 2);
    Decimal.ParsePadded(d.day, 2);
    assert Parse(s) == Some(d);
  }

  /** Distinct valid dates have distinct renderings. */
  lemma FormatInjective(a: Date, b: Date)
    requires Valid(a) && Valid(b) && Format(a) == Format(b)
    ensures a == b
  {
    ParseFormat(a);
    ParseFormat(b);
  }

  /** Any year's rendering is followed by `-`, two month digits, `-` and two day digits. */
  lemma FormatLayout(d: Date)
    requires Valid(d)
    ensures var s, y := Format(d), FormatYear(d.year);
      |s| == |y| + 6 && s[..|y|] == y && s[|y|] == '-' && s[|y| + 3] == '-' &&
      Decimal.AllDigits(s[|y| + 1..|y| + 3]) && Decimal.AllDigits(s[|y| + 4..])
  {
    MonthAndDayLength(d);
    var y := FormatYear(d.year);
    var s := Format(d);
    assert s[|y| + 1..|y| + 3] == Decimal.Padded(d.month, 2);
    assert s[|y| + 4..] == Decimal.Padded(d.day, 2);
  }

  /** For years 0 to 9999 the rendering is the ten-character `YYYY-MM-DD`. */
  lemma FormatShape(d: Date)
    requires Valid(d)
    ensures 0 <= d.year <= 9999 ==>
      |Format(d)| == 10 && Format(d)[4] == '-' && Format(d)[7] == '-' &&
      forall i :: 0 <= i < 10 && i != 4 && i != 7 ==> Decimal.IsDigit(Format(d)[i])
  {
    MonthAndDayLength(d);
    if 0 <= d.year <= 9999 {
      assert Decimal.Pow10(4) == 10000;
      Decimal.PaddedLength(d.year, 4);
    }
  }
}
