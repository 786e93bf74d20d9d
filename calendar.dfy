/**
 * The proleptic Gregorian calendar as Python's `datetime` module implements
 * it: dates from 0001-01-01 to 9999-12-31, day ordinals as returned by
 * `date.toordinal()` (0001-01-01 is day 1), `timedelta` day arithmetic that
 * fails outside that range, `weekday()` with Monday = 0, and `strftime('%Y-%m-%d')`.
 */
module Calendar {
  import opened Optional
  import opened Text

  const MIN_YEAR: int := 1
  const MAX_YEAR: int := 9999
  /** `date.max.toordinal()`. */
  const MAX_ORDINAL: int := 3652059

  datatype Date = Date(year: int, month: int, day: int)

  const FIRST_DATE: Date := Date(MIN_YEAR, 1, 1)
  const LAST_DATE: Date := Date(MAX_YEAR, 12, 31)

  predicate IsLeap(y: int) {
    y % 4 == 0 && (y % 100 != 0 || y % 400 == 0)
  }

  /** `calendar.monthrange(y, m)[1]`. */
  function DaysInMonth(y: int, m: int): int
    requires 1 <= m <= 12
  {
    if m == 2 then (if IsLeap(y) then 29 else 28)
    else if m == 4 || m == 6 || m == 9 || m == 11 then 30
    else 31
  }

  function DaysInYear(y: int): int {
    if IsLeap(y) then 366 else 365
  }

  /** A date `datetime` can represent. */
  predicate Valid(d: Date) {
    MIN_YEAR <= d.year <= MAX_YEAR && 1 <= d.month <= 12 && 1 <= d.day <= DaysInMonth(d.year, d.month)
  }

  /** `datetime(y, m, d)`: `None` where the constructor raises `ValueError`. */
  function MakeDate(y: int, m: int, d: int): Option<Date> {
    if Valid(Date(y, m, d)) then Some(Date(y, m, d)) else None
  }

  function DaysBeforeYear(y: int): int {
    var p := y - 1;
    365 * p + p / 4 - p / 100 + p / 400
  }

  function DaysBeforeMonth(y: int, m: int): int
    requires 1 <= m <= 12
  {
    (if m > 2 && IsLeap(y) then 1 else 0) +
    (if m == 1 then 0 else if m == 2 then 31 else if m == 3 then 59
     else if m == 4 then 90 else if m == 5 then 120 else if m == 6 then 151
     else if m == 7 then 181 else if m == 8 then 212 else if m == 9 then 243
     else if m == 10 then 273 else if m == 11 then 304 else 334)
  }

  /** `date.toordinal()`. */
  function Ordinal(d: Date): int
    requires 1 <= d.month <= 12
  {
    DaysBeforeYear(d.year) + DaysBeforeMonth(d.year, d.month) + d.day
  }

  /** `date.weekday()`: Monday is 0, Sunday is 6; 0001-01-01 was a Monday. */
  function Weekday(d: Date): (w: int)
    requires 1 <= d.month <= 12
    ensures 0 <= w < 7
  {
    (Ordinal(d) + 6) % 7
  }

  /** Stepping `y` by one moves `y / d` exactly when `d` divides `y`. */
  lemma DivStep4(y: int)
    ensures y / 4 == (y - 1) / 4 + (if y % 4 == 0 then 1 else 0)
  {
  }

  lemma DivStep100(y: int)
    ensures y / 100 == (y - 1) / 100 + (if y % 100 == 0 then 1 else 0)
  {
  }

  lemma DivStep400(y: int)
    ensures y / 400 == (y - 1) / 400 + (if y % 400 == 0 then 1 else 0)
  {
  }

  lemma YearLength(y: int)
    ensures DaysBeforeYear(y + 1) == DaysBeforeYear(y) + DaysInYear(y)
  {
    DivStep4(y);
    DivStep100(y);
    DivStep400(y);
  }

  lemma MonthLength(y: int, m: int)
    requires 1 <= m <= 12
    ensures DaysBeforeMonth(y, m) + DaysInMonth(y, m) == if m < 12 then DaysBeforeMonth(y, m + 1) else DaysInYear(y)
  {
  }

  /** The day after the last day of month `m` is the first of the next month. */
  lemma MonthEndThenFirst(y: int, m: int)
    requires 1 <= m <= 12
    ensures Ordinal(Date(y, m, DaysInMonth(y, m))) + 1 ==
      if m < 12 then Ordinal(Date(y, m + 1, 1)) else Ordinal(Date(y + 1, 1, 1))
  {
    MonthLength(y, m);
    YearLength(y);
  }

  lemma DaysBeforeYearMonotone(y1: int, y2: int)
    requires 1 <= y1 <= y2
    ensures DaysBeforeYear(y1) <= DaysBeforeYear(y2)
  {
  }

  /** Every valid date has an ordinal between that of 0001-01-01 and that of 9999-12-31. */
  lemma OrdinalBounds(d: Date)
    requires Valid(d)
    ensures 1 <= Ordinal(d) <= MAX_ORDINAL
  {
    MonthLength(d.year, d.month);
    YearLength(d.year);
    DaysBeforeYearMonotone(d.year + 1, MAX_YEAR + 1);
  }

  /** The calendar day after `d`. */
  function NextDay(d: Date): Date
    requires 1 <= d.month <= 12
  {
    if d.day < DaysInMonth(d.year, d.month) then Date(d.year, d.month, d.day + 1)
    else if d.month < 12 then Date(d.year, d.month + 1, 1)
    else Date(d.year + 1, 1, 1)
  }

  /** The calendar day before `d`. */
  function PrevDay(d: Date): Date
    requires 1 <= d.month <= 12
  {
    if d.day > 1 then Date(d.year, d.month, d.day - 1)
    else if d.month > 1 then Date(d.year, d.month - 1, DaysInMonth(d.year, d.month - 1))
    else Date(d.year - 1, 12, 31)
  }

  lemma NextDayOrdinal(d: Date)
    requires Valid(d) && d != LAST_DATE
    ensures Valid(NextDay(d)) && Ordinal(NextDay(d)) == Ordinal(d) + 1
  {
    MonthLength(d.year, d.month);
    YearLength(d.year);
  }

  lemma PrevDayOrdinal(d: Date)
    requires Valid(d) && d != FIRST_DATE
    ensures Valid(PrevDay(d)) && Ordinal(PrevDay(d)) == Ordinal(d) - 1
  {
    if d.day == 1 {
      if d.month > 1 {
        MonthLength(d.year, d.month - 1);
      } else {
        YearLength(d.year - 1);
      }
    }
  }

  /**
   * `d + timedelta(days=n)`: `None` where Python raises `OverflowError`
   * because the result falls outside 0001-01-01..9999-12-31.
   */
  function AddDays(d: Date, n: int): (r: Option<Date>)
    requires Valid(d)
    ensures r.Some? <==> 1 <= Ordinal(d) + n <= MAX_ORDINAL
    ensures r.Some? ==> Valid(r.value) && Ordinal(r.value) == Ordinal(d) + n
    decreases if n < 0 then -n else n
  {
    OrdinalBounds(d);
    if n == 0 then Some(d)
    else if n > 0 then
      if d == LAST_DATE then None
      else NextDayOrdinal(d); AddDays(NextDay(d), n - 1)
    else
      if d == FIRST_DATE then None
      else PrevDayOrdinal(d); AddDays(PrevDay(d), n + 1)
  }

  /** Lexicographic order on (year, month, day). */
  predicate TupleLe(a: Date, b: Date) {
    a.year < b.year || (a.year == b.year && (a.month < b.month || (a.month == b.month && a.day <= b.day)))
  }

  lemma DaysBeforeMonthMonotone(y: int, m1: int, m2: int)
    requires 1 <= m1 <= m2 <= 12
    ensures DaysBeforeMonth(y, m1) + (if m1 < m2 then DaysInMonth(y, m1) else 0) <= DaysBeforeMonth(y, m2)
  {
  }

  /** A date's ordinal lies after the days of the years before it and within its own year. */
  lemma OrdinalInYear(d: Date)
    requires Valid(d)
    ensures DaysBeforeYear(d.year) < Ordinal(d) <= DaysBeforeYear(d.year + 1)
  {
    MonthLength(d.year, d.month);
    DaysBeforeMonthMonotone(d.year, d.month, 12);
    MonthLength(d.year, 12);
    YearLength(d.year);
  }

  /** Ordinals order valid dates exactly as their (year, month, day) triples are ordered. */
  lemma OrdinalOrder(a: Date, b: Date)
    requires Valid(a) && Valid(b)
    ensures Ordinal(a) <= Ordinal(b) <==> TupleLe(a, b)
    ensures Ordinal(a) == Ordinal(b) <==> a == b
  {
    if a.year < b.year {
      OrdinalInYear(a);
      OrdinalInYear(b);
      DaysBeforeYearMonotone(a.year + 1, b.year);
    } else if b.year < a.year {
      OrdinalInYear(a);
      OrdinalInYear(b);
      DaysBeforeYearMonotone(b.year + 1, a.year);
    } else if a.month < b.month {
      DaysBeforeMonthMonotone(a.year, a.month, b.month);
    } else if b.month < a.month {
      DaysBeforeMonthMonotone(a.year, b.month, a.month);
    }
  }

  /** `strftime('%Y-%m-%d')`. */
  function Iso(d: Date): (s: string)
    requires Valid(d)
    ensures |s| == 10
  {
    Digits(d.year, 4) + "-" + Digits(d.month, 2) + "-" + Digits(d.day, 2)
  }

  /** Two dash-separated pairs of fields compare by their first fields, then by their second. */
  lemma CmpFields(a1: string, a2: string, b1: string, b2: string)
    requires |a1| == |b1|
    ensures Cmp(a1 + ("-" + a2), b1 + ("-" + b2)) == if Cmp(a1, b1) != 0 then Cmp(a1, b1) else Cmp(a2, b2)
  {
    CmpConcat(a1, "-" + a2, b1, "-" + b2);
    CmpConcat("-", a2, "-", b2);
    CmpProperties("-", "-");
  }

  /** The zero-padded year, month and day compare as the numbers do. */
  lemma FieldDigitsCmp(a: Date, b: Date)
    requires Valid(a) && Valid(b)
    ensures Cmp(Digits(a.year, 4), Digits(b.year, 4)) == Sign(a.year - b.year)
    ensures Cmp(Digits(a.month, 2), Digits(b.month, 2)) == Sign(a.month - b.month)
    ensures Cmp(Digits(a.day, 2), Digits(b.day, 2)) == Sign(a.day - b.day)
  {
    assert Pow10(4) == 10000 && Pow10(2) == 100;
    CmpDigits(a.year, b.year, 4);
    CmpDigits(a.month, b.month, 2);
    CmpDigits(a.day, b.day, 2);
  }

  /** Comparing formatted dates compares years, then months, then days. */
  lemma IsoCmp(a: Date, b: Date)
    requires Valid(a) && Valid(b)
    ensures Cmp(Iso(a), Iso(b)) ==
      if a.year != b.year then Sign(a.year - b.year)
      else if a.month != b.month then Sign(a.month - b.month)
      else Sign(a.day - b.day)
  {
    FieldDigitsCmp(a, b);
    var ya, yb := Digits(a.year, 4), Digits(b.year, 4);
    var ma, mb := Digits(a.month, 2), Digits(b.month, 2);
    var da, db := Digits(a.day, 2), Digits(b.day, 2);
    assert Iso(a) == ya + ("-" + (ma + ("-" + da)));
    assert Iso(b) == yb + ("-" + (mb + ("-" + db)));
    CmpFields(ya, ma + ("-" + da), yb, mb + ("-" + db));
    CmpFields(ma, da, mb, db);
  }

  /** Formatted dates compare as strings exactly as the dates compare on the calendar. */
  lemma IsoOrder(a: Date, b: Date)
    requires Valid(a) && Valid(b)
    ensures LexLe(Iso(a), Iso(b)) <==> Ordinal(a) <= Ordinal(b)
    ensures Iso(a) == Iso(b) <==> a == b
  {
    OrdinalOrder(a, b);
    IsoCmp(a, b);
    CmpProperties(Iso(a), Iso(b));
  }
}
