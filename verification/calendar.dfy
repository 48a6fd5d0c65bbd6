/** Calendar dates as Python's `datetime.date` handles them: the proleptic
    Gregorian calendar over years 1..9999, day ordinals with 0001-01-01 as
    day 1 (`date.toordinal`), adding a day count (`date + timedelta`, which
    raises OverflowError outside the range), comparison, and the strict
    `YYYY-MM-DD` text form written by `date.isoformat`.
 */
module Calendar {
  import opened Wrappers
  import opened Text
  import opened Numerals

  datatype Date = Date(year: int, month: int, day: int)

  const MaxYear: int := 9999

  /** Day number of 9999-12-31, the last representable date. */
  const MaxOrdinal: int := 3652059

  predicate IsLeap(y: int) {
    y % 4 == 0 && (y % 100 != 0 || y % 400 == 0)
  }

  function DaysInMonth(y: int, m: int): int {
    if m == 2 then (if IsLeap(y) then 29 else 28)
    else if m == 4 || m == 6 || m == 9 || m == 11 then 30
    else 31
  }

  function DaysInYear(y: int): int {
    if IsLeap(y) then 366 else 365
  }

  /** A well-formed day of the proleptic calendar (no upper year bound). */
  predicate InCalendar(d: Date) {
    && 1 <= d.year
    && 1 <= d.month <= 12
    && 1 <= d.day <= DaysInMonth(d.year, d.month)
  }

  /** A date `datetime.date` can represent. */
  predicate Valid(d: Date) {
    InCalendar(d) && d.year <= MaxYear
  }

  /** Days in the years before `y`. */
  function DaysBeforeYear(y: int): int
    requires y >= 1
  {
    var p := y - 1;
    p * 365 + p / 4 - p / 100 + p / 400
  }

  /** Days in the months of year `y` before month `m`. */
  function DaysBeforeMonth(y: int, m: int): int
    requires 1 <= m <= 12
  {
    var common :=
      if m == 1 then 0 else if m == 2 then 31 else if m == 3 then 59
      else if m == 4 then 90 else if m == 5 then 120 else if m == 6 then 151
      else if m == 7 then 181 else if m == 8 then 212 else if m == 9 then 243
      else if m == 10 then 273 else if m == 11 then 304 else 334;
    common + (if m > 2 && IsLeap(y) then 1 else 0)
  }

  /** `date.toordinal()`: 0001-01-01 is day 1. */
  function Ordinal(d: Date): int
    requires InCalendar(d)
  {
    DaysBeforeYear(d.year) + DaysBeforeMonth(d.year, d.month) + d.day
  }

  lemma DaysBeforeYearStep(y: int)
    requires y >= 1
    ensures DaysBeforeYear(y + 1) == DaysBeforeYear(y) + DaysInYear(y)
  {
    var p := y - 1;
    assert (p + 1) / 4 == p / 4 + (if y % 4 == 0 then 1 else 0);
    assert (p + 1) / 100 == p / 100 + (if y % 100 == 0 then 1 else 0);
    assert (p + 1) / 400 == p / 400 + (if y % 400 == 0 then 1 else 0);
  }

  lemma {:induction false} DaysBeforeYearMonotone(a: int, b: int)
    requires 1 <= a <= b
    ensures DaysBeforeYear(a) + (b - a) * 365 <= DaysBeforeYear(b)
    decreases b - a
  {
    if a < b {
      DaysBeforeYearStep(a);
      DaysBeforeYearMonotone(a + 1, b);
    }
  }

  /** The day of the year of `d` lies in 1..DaysInYear. */
  lemma DayOfYearBounds(d: Date)
    requires InCalendar(d)
    ensures 1 <= DaysBeforeMonth(d.year, d.month) + d.day <= DaysInYear(d.year)
  {
  }

  /** Month `m` starts where the months before it end. */
  lemma DaysBeforeMonthGap(y: int, m: int, n: int)
    requires 1 <= m < n <= 12
    ensures DaysBeforeMonth(y, m) + DaysInMonth(y, m) <= DaysBeforeMonth(y, n)
  {
  }

  /** Month `m + 1` starts right after month `m` ends. */
  lemma DaysBeforeMonthStep(y: int, m: int)
    requires 1 <= m < 12
    ensures DaysBeforeMonth(y, m + 1) == DaysBeforeMonth(y, m) + DaysInMonth(y, m)
  {
  }

  /** Every calendar day has a positive ordinal, and only years up to 9999
      have ordinals up to MaxOrdinal. */
  lemma OrdinalRange(d: Date)
    requires InCalendar(d)
    ensures Ordinal(d) >= 1
    ensures Ordinal(d) <= MaxOrdinal <==> d.year <= MaxYear
  {
    DayOfYearBounds(d);
    if d.year <= MaxYear {
      DaysBeforeYearMonotone(d.year, MaxYear);
      DaysBeforeYearStep(MaxYear);
    } else {
      DaysBeforeYearMonotone(MaxYear + 1, d.year);
    }
  }

  /** The next calendar day. */
  function NextDay(d: Date): (r: Date)
    requires InCalendar(d)
    ensures InCalendar(r) && Ordinal(r) == Ordinal(d) + 1
  {
    if d.day < DaysInMonth(d.year, d.month) then d.(day := d.day + 1)
    else if d.month < 12 then
      DaysBeforeMonthStep(d.year, d.month);
      Date(d.year, d.month + 1, 1)
    else
      DaysBeforeYearStep(d.year);
      Date(d.year + 1, 1, 1)
  }

  /** The previous calendar day; 0001-01-01 has none. */
  function PrevDay(d: Date): (r: Date)
    requires InCalendar(d) && Ordinal(d) > 1
    ensures InCalendar(r) && Ordinal(r) == Ordinal(d) - 1
  {
    if d.day > 1 then d.(day := d.day - 1)
    else if d.month > 1 then
      DaysBeforeMonthStep(d.year, d.month - 1);
      Date(d.year, d.month - 1, DaysInMonth(d.year, d.month - 1))
    else
      DaysBeforeYearStep(d.year - 1);
      Date(d.year - 1, 12, 31)
  }

  /** `n` days after (before, when negative) `d`, one day at a time. */
  function Shift(d: Date, n: int): (r: Date)
    requires InCalendar(d) && Ordinal(d) + n >= 1
    ensures InCalendar(r) && Ordinal(r) == Ordinal(d) + n
    decreases if n >= 0 then n else -n
  {
    if n == 0 then d
    else if n > 0 then Shift(NextDay(d), n - 1)
    else Shift(PrevDay(d), n + 1)
  }

  /** `d + timedelta(days=n)`: None where Python raises OverflowError. */
  function AddDays(d: Date, n: int): (r: Option<Date>)
    requires Valid(d)
    ensures r.Some? <==> 1 <= Ordinal(d) + n <= MaxOrdinal
    ensures r.Some? ==> Valid(r.value) && Ordinal(r.value) == Ordinal(d) + n
  {
    if 1 <= Ordinal(d) + n <= MaxOrdinal then
      var e := Shift(d, n);
      OrdinalRange(e);
      Some(e)
    else None
  }

  /** `a > b` on `datetime.date`: year, then month, then day. */
  predicate Later(a: Date, b: Date) {
    || a.year > b.year
    || (a.year == b.year && a.month > b.month)
    || (a.year == b.year && a.month == b.month && a.day > b.day)
  }

  /** Python's field-by-field comparison agrees with comparing day ordinals. */
  lemma LaterIffOrdinal(a: Date, b: Date)
    requires InCalendar(a) && InCalendar(b)
    ensures Later(a, b) <==> Ordinal(a) > Ordinal(b)
  {
    LaterImpliesOrdinal(a, b);
    LaterImpliesOrdinal(b, a);
  }

  lemma LaterImpliesOrdinal(a: Date, b: Date)
    requires InCalendar(a) && InCalendar(b)
    ensures Later(a, b) ==> Ordinal(a) > Ordinal(b)
    ensures a == b || Later(a, b) || Later(b, a)
  {
    DayOfYearBounds(a);
    DayOfYearBounds(b);
    if a.year > b.year {
      DaysBeforeYearStep(b.year);
      DaysBeforeYearMonotone(b.year + 1, a.year);
    } else if a.year == b.year && a.month > b.month {
      DaysBeforeMonthGap(b.year, b.month, a.month);
    }
  }

  /** Distinct dates have distinct ordinals. */
  lemma OrdinalInjective(a: Date, b: Date)
    requires InCalendar(a) && InCalendar(b) && Ordinal(a) == Ordinal(b)
    ensures a == b
  {
    LaterImpliesOrdinal(a, b);
    LaterImpliesOrdinal(b, a);
  }

  /** A three-day loan period across a month end, a year end and a leap
      day. */
  lemma AddDaysExamples()
    ensures AddDays(Date(2024, 1, 30), 3) == Some(Date(2024, 2, 2))
    ensures AddDays(Date(2023, 12, 30), 3) == Some(Date(2024, 1, 2))
    ensures AddDays(Date(2024, 2, 27), 3) == Some(Date(2024, 3, 1))
    ensures AddDays(Date(2023, 2, 27), 3) == Some(Date(2023, 3, 2))
  {
    assert DaysBeforeYear(2023) == 738520 && DaysBeforeYear(2024) == 738885;
    AddDaysLands(Date(2024, 1, 30), 3, Date(2024, 2, 2));
    AddDaysLands(Date(2023, 12, 30), 3, Date(2024, 1, 2));
    AddDaysLands(Date(2024, 2, 27), 3, Date(2024, 3, 1));
    AddDaysLands(Date(2023, 2, 27), 3, Date(2023, 3, 2));
  }

  /** The last representable day cannot be advanced. */
  lemma AddDaysOverflowExample()
    ensures AddDays(Date(9999, 12, 31), 1) == None
  {
    assert Ordinal(Date(9999, 12, 31)) == MaxOrdinal;
  }

  /** Adding the ordinal distance between two representable dates lands on
      the second one. */
  lemma AddDaysLands(d: Date, n: int, e: Date)
    requires Valid(d) && Valid(e) && Ordinal(d) + n == Ordinal(e)
    ensures AddDays(d, n) == Some(e)
  {
    OrdinalRange(e);
    OrdinalInjective(AddDays(d, n).value, e);
  }

  /** `date.isoformat()`: four-digit year, two-digit month and day. */
  function FormatIso(d: Date): (s: string)
    requires Valid(d)
    ensures |s| == 10
  {
    ShowLength(d.year, 4);
    ShowLength(d.month, 2);
    ShowLength(d.day, 2);
    ZFill(Show(d.year), 4) + "-" + ZFill(Show(d.month), 2) + "-" + ZFill(Show(d.day), 2)
  }

  /** Strict `YYYY-MM-DD` reading: ten characters, dashes at positions 4
      and 7, digits elsewhere, and a real date. */
  function ParseIso(s: string): (r: Option<Date>)
    ensures r.Some? ==> Valid(r.value)
  {
    if |s| == 10 && s[4] == '-' && s[7] == '-'
       && IsDigits(s[..4]) && IsDigits(s[5..7]) && IsDigits(s[8..])
    then
      var d := Date(Value(s[..4]), Value(s[5..7]), Value(s[8..]));
      if Valid(d) then Some(d) else None
    else None
  }

  /** Formatting then reading gives the date back. */
  lemma ParseFormat(d: Date)
    requires Valid(d)
    ensures ParseIso(FormatIso(d)) == Some(d)
  {
    assert Pow10(2) == 100 && Pow10(4) == 10000 by {
      assert Pow10(1) == 10 && Pow10(3) == 1000;
    }
    var y := Field(d.year, 4);
    var m := Field(d.month, 2);
    var dd := Field(d.day, 2);
    ParseFields(FormatIso(d), y, m, dd, d);
  }

  /** `n` printed and zero-filled to `width`, a digit field reading `n`. */
  lemma Field(n: nat, width: nat) returns (f: string)
    requires 1 <= width && n < Pow10(width)
    ensures f == ZFill(Show(n), width) && DigitField(f, width, n)
  {
    f := ZFill(Show(n), width);
    ZFillShow(n, width);
  }

  /** A digit string of the given width holding the value `n`. */
  predicate DigitField(f: string, width: nat, n: int) {
    |f| == width && IsDigits(f) && Value(f) == n
  }

  /** Reading a string assembled from digit fields of widths 4, 2 and 2
      gives the date they hold. */
  lemma ParseFields(s: string, y: string, m: string, dd: string, d: Date)
    requires s == y + "-" + m + "-" + dd
    requires DigitField(y, 4, d.year) && DigitField(m, 2, d.month) && DigitField(dd, 2, d.day)
    requires Valid(d)
    ensures ParseIso(s) == Some(d)
  {
    assert s[..4] == y && s[5..7] == m && s[8..] == dd;
  }

  /** Reading then formatting gives the text back: the strict form is
      canonical. */
  lemma FormatParse(s: string)
    requires ParseIso(s).Some?
    ensures FormatIso(ParseIso(s).value) == s
  {
    var d := ParseIso(s).value;
    ZFillShowValue(s[..4]);
    ZFillShowValue(s[5..7]);
    ZFillShowValue(s[8..]);
    assert s == s[..4] + "-" + s[5..7] + "-" + s[8..];
  }
}
