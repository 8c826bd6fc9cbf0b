/** The proleptic Gregorian calendar over Python's date range 0001-01-01 .. 9999-12-31:
    validity (what `datetime(y, m, d)` accepts), day ordinals (`date.toordinal()`),
    `date + timedelta(days=n)` and `(a - b).days`, and `strftime('%Y-%m-%d')`. */
module Calendar {
  import opened Text

  datatype Date = Date(year: int, month: int, day: int)

  const MinYear := 1
  const MaxYear := 9999

  predicate IsLeapYear(y: int)
  {
    y % 4 == 0 && (y % 100 != 0 || y % 400 == 0)
  }

  function DaysInMonth(y: int, m: int): (n: int)
    requires 1 <= m <= 12
    ensures 28 <= n <= 31
    ensures m == 2 ==> (n == 29 <==> IsLeapYear(y))
  {
    if m == 2 then (if IsLeapYear(y) then 29 else 28)
    else if m == 4 || m == 6 || m == 9 || m == 11 then 30
    else 31
  }

  /** What Python's `datetime(y, m, d)` / `date(y, m, d)` accept without raising ValueError. */
  predicate IsValidDate(d: Date)
  {
    MinYear <= d.year <= MaxYear && 1 <= d.month <= 12 && 1 <= d.day <= DaysInMonth(d.year, d.month)
  }

  function YearLength(y: int): int
  {
    if IsLeapYear(y) then 366 else 365
  }

  /** Days in the years before `y` (`_days_before_year`). */
  function DaysBeforeYear(y: int): int
    requires y >= 1
  {
    var p := y - 1;
    365 * p + p / 4 - p / 100 + p / 400
  }

  /** Days in the months of year `y` before month `m` (`_days_before_month`). */
  function DaysBeforeMonth(y: int, m: int): (n: int)
    requires 1 <= m <= 12
    ensures 0 <= n
  {
    var base :=
      if m == 1 then 0 else if m == 2 then 31 else if m == 3 then 59 else if m == 4 then 90
      else if m == 5 then 120 else if m == 6 then 151 else if m == 7 then 181
      else if m == 8 then 212 else if m == 9 then 243 else if m == 10 then 273
      else if m == 11 then 304 else 334;
    if m > 2 && IsLeapYear(y) then base + 1 else base
  }

  lemma MonthStep(y: int, m: int)
    requires 1 <= m <= 12
    ensures m < 12 ==> DaysBeforeMonth(y, m + 1) == DaysBeforeMonth(y, m) + DaysInMonth(y, m)
    ensures m == 12 ==> DaysBeforeMonth(y, m) + DaysInMonth(y, m) == YearLength(y)
  {
  }

  /** `date(y, m, d).toordinal()`: 0001-01-01 is day 1. */
  function ToOrdinal(d: Date): int
    requires IsValidDate(d)
  {
    DaysBeforeYear(d.year) + DaysBeforeMonth(d.year, d.month) + d.day
  }

  /** `date.max.toordinal()`. */
  const MaxOrdinal := 3652059

  lemma DivSteps(y: int)
    requires y >= 1
    ensures y / 4 - (y - 1) / 4 == if y % 4 == 0 then 1 else 0
    ensures y / 100 - (y - 1) / 100 == if y % 100 == 0 then 1 else 0
    ensures y / 400 - (y - 1) / 400 == if y % 400 == 0 then 1 else 0
  {
  }

  lemma YearStep(y: int)
    requires y >= 1
    ensures DaysBeforeYear(y + 1) == DaysBeforeYear(y) + YearLength(y)
  {
    DivSteps(y);
    if y % 400 == 0 {
      CenturyOf400(y);
    }
    if y % 100 == 0 {
      FourOfCentury(y);
    }
  }

  lemma CenturyOf400(y: int)
    requires y % 400 == 0
    ensures y % 100 == 0
  {
    var k := y / 400;
    assert y == 100 * (4 * k);
  }

  lemma FourOfCentury(y: int)
    requires y % 100 == 0
    ensures y % 4 == 0
  {
    var k := y / 100;
    assert y == 4 * (25 * k);
  }

  lemma {:induction false} YearMonotone(a: int, b: int)
    requires 1 <= a <= b
    ensures DaysBeforeYear(a) + 365 * (b - a) <= DaysBeforeYear(b)
    decreases b - a
  {
    if a < b {
      YearMonotone(a, b - 1);
      YearStep(b - 1);
    }
  }

  lemma OrdinalWithinYear(d: Date)
    requires IsValidDate(d)
    ensures DaysBeforeYear(d.year) < ToOrdinal(d) <= DaysBeforeYear(d.year + 1)
  {
    YearStep(d.year);
    MonthStep(d.year, d.month);
    if d.month < 12 {
      MonthStep(d.year, d.month + 1);
      MonthBound(d.year, d.month + 1);
    }
  }

  lemma {:induction false} MonthBound(y: int, m: int)
    requires 1 <= m <= 12
    ensures DaysBeforeMonth(y, m) + DaysInMonth(y, m) <= YearLength(y)
    decreases 12 - m
  {
    MonthStep(y, m);
    if m < 12 {
      MonthBound(y, m + 1);
    }
  }

  lemma OrdinalRange(d: Date)
    requires IsValidDate(d)
    ensures 1 <= ToOrdinal(d) <= MaxOrdinal
  {
    OrdinalWithinYear(d);
    YearMonotone(d.year + 1, 10000);
    assert DaysBeforeYear(10000) == MaxOrdinal;
  }

  /** The year whose days contain ordinal `n`, searched upward from `y`. */
  function YearOf(n: int, y: int): (r: int)
    requires 1 <= y <= MaxYear && DaysBeforeYear(y) < n <= MaxOrdinal
    ensures y <= r <= MaxYear && DaysBeforeYear(r) < n <= DaysBeforeYear(r + 1)
    decreases MaxYear - y
  {
    if y == MaxYear then
      assert DaysBeforeYear(y + 1) == MaxOrdinal;
      y
    else if n <= DaysBeforeYear(y + 1) then y
    else YearOf(n, y + 1)
  }

  /** The month of year `y` holding day-of-year `r`, searched upward from `m`. */
  function MonthOf(y: int, r: int, m: int): (k: int)
    requires 1 <= m <= 12 && DaysBeforeMonth(y, m) < r <= YearLength(y)
    ensures m <= k <= 12 && DaysBeforeMonth(y, k) < r <= DaysBeforeMonth(y, k) + DaysInMonth(y, k)
    decreases 12 - m
  {
    MonthStep(y, m);
    if m == 12 || r <= DaysBeforeMonth(y, m) + DaysInMonth(y, m) then m
    else MonthOf(y, r, m + 1)
  }

  /** `date.fromordinal(n)`. */
  function FromOrdinal(n: int): (d: Date)
    requires 1 <= n <= MaxOrdinal
    ensures IsValidDate(d) && ToOrdinal(d) == n
  {
    assert DaysBeforeYear(1) == 0;
    var y := YearOf(n, 1);
    YearStep(y);
    var r := n - DaysBeforeYear(y);
    assert DaysBeforeMonth(y, 1) == 0;
    var m := MonthOf(y, r, 1);
    Date(y, m, r - DaysBeforeMonth(y, m))
  }

  /** Different valid dates have different ordinals, so an ordinal names one date. */
  lemma OrdinalInjective(a: Date, b: Date)
    requires IsValidDate(a) && IsValidDate(b) && ToOrdinal(a) == ToOrdinal(b)
    ensures a == b
  {
    OrdinalWithinYear(a);
    OrdinalWithinYear(b);
    if a.year < b.year {
      YearMonotone(a.year + 1, b.year);
      assert false;
    } else if b.year < a.year {
      YearMonotone(b.year + 1, a.year);
      assert false;
    }
    var y := a.year;
    if a.month < b.month {
      MonthGap(y, a.month, b.month);
      assert false;
    } else if b.month < a.month {
      MonthGap(y, b.month, a.month);
      assert false;
    }
  }

  lemma {:induction false} MonthGap(y: int, m1: int, m2: int)
    requires 1 <= m1 < m2 <= 12
    ensures DaysBeforeMonth(y, m1) + DaysInMonth(y, m1) <= DaysBeforeMonth(y, m2)
    decreases m2 - m1
  {
    MonthStep(y, m1);
    if m1 + 1 < m2 {
      MonthGap(y, m1 + 1, m2);
      MonthStep(y, m1 + 1);
    }
  }

  lemma FromToOrdinal(d: Date)
    requires IsValidDate(d)
    ensures 1 <= ToOrdinal(d) <= MaxOrdinal && FromOrdinal(ToOrdinal(d)) == d
  {
    OrdinalRange(d);
    OrdinalInjective(FromOrdinal(ToOrdinal(d)), d);
  }

  /** `d + timedelta(days=n)`: None where Python raises OverflowError
      ("date value out of range"). */
  function AddDays(d: Date, n: int): (r: Option<Date>)
    requires IsValidDate(d)
    ensures r.Some? <==> 1 <= ToOrdinal(d) + n <= MaxOrdinal
    ensures r.Some? ==> IsValidDate(r.value) && ToOrdinal(r.value) == ToOrdinal(d) + n
  {
    var k := ToOrdinal(d) + n;
    if 1 <= k <= MaxOrdinal then Some(FromOrdinal(k)) else None
  }

  /** `(a - b).days` for two dates. */
  function DaysBetween(a: Date, b: Date): int
    requires IsValidDate(a) && IsValidDate(b)
  {
    ToOrdinal(a) - ToOrdinal(b)
  }

  /** Adding n days and then measuring the distance back gives n; a date is 0 days from itself
      only when the two dates are the same. */
  lemma AddDaysThenBetween(d: Date, n: int)
    requires IsValidDate(d) && AddDays(d, n).Some?
    ensures DaysBetween(AddDays(d, n).value, d) == n
  {
  }

  lemma BetweenZeroIffSame(a: Date, b: Date)
    requires IsValidDate(a) && IsValidDate(b)
    ensures DaysBetween(a, b) == 0 <==> a == b
  {
    if DaysBetween(a, b) == 0 {
      OrdinalInjective(a, b);
    }
  }

  /** The date found by adding the distance between two dates is the later date itself. */
  lemma AddBetween(a: Date, b: Date)
    requires IsValidDate(a) && IsValidDate(b)
    ensures AddDays(b, DaysBetween(a, b)) == Some(a)
  {
    OrdinalRange(a);
    OrdinalInjective(AddDays(b, DaysBetween(a, b)).value, a);
  }


  /** `d.strftime('%Y-%m-%d')`, the four-digit zero-padded year form. */
  function FormatIso(d: Date): (s: string)
    requires IsValidDate(d)
    ensures |s| == 10 && s[4] == '-' && s[7] == '-'
    ensures AllDigits(s[..4]) && AllDigits(s[5..7]) && AllDigits(s[8..])
  {
    var y := PadZeros(NatToString(d.year), 4);
    var m := PadZeros(NatToString(d.month), 2);
    var dd := PadZeros(NatToString(d.day), 2);
    assert |NatToString(d.year)| <= 4 by { NatLength(d.year, 4); }
    assert |NatToString(d.month)| <= 2 by { NatLength(d.month, 2); }
    assert |NatToString(d.day)| <= 2 by { NatLength(d.day, 2); }
    var s := y + "-" + m + "-" + dd;
    FieldSlices(y, '-', m, dd);
    s
  }

  /** The three fields of FormatIso read back as the date's fields. */
  lemma FormatIsoFields(d: Date)
    requires IsValidDate(d)
    ensures DigitsValue(FormatIso(d)[..4]) == d.year
    ensures DigitsValue(FormatIso(d)[5..7]) == d.month
    ensures DigitsValue(FormatIso(d)[8..]) == d.day
  {
    var y := PadZeros(NatToString(d.year), 4);
    var m := PadZeros(NatToString(d.month), 2);
    var dd := PadZeros(NatToString(d.day), 2);
    NatLength(d.year, 4);
    NatLength(d.month, 2);
    NatLength(d.day, 2);
    assert FormatIso(d) == y + "-" + m + "-" + dd;
    FieldSlices(y, '-', m, dd);
    PaddedRoundTrip(d.year, 4);
    PaddedRoundTrip(d.month, 2);
    PaddedRoundTrip(d.day, 2);
  }

  lemma {:induction false} NatLength(n: nat, k: nat)
    requires k >= 1 && n < Pow10(k)
    ensures |NatToString(n)| <= k
    decreases n
  {
    if n >= 10 {
      var p := Pow10(k - 1);
      assert n < 10 * p;
      assert (n / 10) * 10 <= n;
      assert n / 10 < p;
      NatLength(n / 10, k - 1);
    }
  }
}
