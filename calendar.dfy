/** The proleptic Gregorian calendar of Python's `datetime`: dates of the
    years 1..9999, their day ordinal (`toordinal`, 0001-01-01 being day 1),
    the weekday with Monday = 0, and `date + timedelta(days=n)`, which raises
    OverflowError when the result would leave the year range. */
module Calendar {
  import opened Base

  datatype Date = Date(year: int, month: int, day: int)

  const MaxYear: int := 9999

  /** The ordinal of 9999-12-31, the last date Python represents. */
  const MaxOrdinal: int := 3652059

  predicate IsLeapYear(y: int) {
    y % 4 == 0 && (y % 100 != 0 || y % 400 == 0)
  }

  function DaysInYear(y: int): int {
    if IsLeapYear(y) then 366 else 365
  }

  function DaysInMonth(y: int, m: int): (n: int)
    requires 1 <= m <= 12
    ensures 28 <= n <= 31
  {
    if m == 2 then (if IsLeapYear(y) then 29 else 28)
    else if m == 4 || m == 6 || m == 9 || m == 11 then 30
    else 31
  }

  /** A date of the proleptic Gregorian calendar, with no upper year bound. */
  predicate InCalendar(d: Date) {
    d.year >= 1 && 1 <= d.month <= 12 && 1 <= d.day <= DaysInMonth(d.year, d.month)
  }

  /** A date Python's `datetime` can represent. */
  predicate Valid(d: Date) {
    InCalendar(d) && d.year <= MaxYear
  }

  /** Days in the years before `y`. */
  function DaysBeforeYear(y: int): int
    requires y >= 1
  {
    var p := y - 1;
    p * 365 + p / 4 - p / 100 + p / 400
  }

  /** Days in the months of year `y` before month `m`. */
  function DaysBeforeMonth(y: int, m: int): int
    requires 1 <= m <= 12
  {
    [0, 0, 31, 59, 90, 120, 151, 181, 212, 243, 273, 304, 334][m] + (if m > 2 && IsLeapYear(y) then 1 else 0)
  }

  /** `date.toordinal()`. */
  function Ordinal(d: Date): (o: int)
    requires InCalendar(d)
    ensures o >= 1
  {
    DaysBeforeYear(d.year) + DaysBeforeMonth(d.year, d.month) + d.day
  }

  /** `date.weekday()`: Monday is 0 and Sunday is 6. */
  function Weekday(d: Date): (w: int)
    requires InCalendar(d)
    ensures 0 <= w <= 6
  {
    (Ordinal(d) + 6) % 7
  }

  /** The weekday `j` days after a day with weekday `w`. */
  function WeekdayAfter(w: int, j: int): int {
    (w + j) % 7
  }

  /** The (year, month) after the given one. */
  function NextMonth(y: int, m: int): (int, int) {
    if m == 12 then (y + 1, 1) else (y, m + 1)
  }

  /** The Gregorian leap-year rule: every 4th year, except centuries not
      divisible by 400. */
  lemma LeapYearRule()
    ensures IsLeapYear(2024) && !IsLeapYear(2026)
    ensures !IsLeapYear(1900) && IsLeapYear(2000)
    ensures DaysInMonth(2024, 2) == 29 && DaysInMonth(2026, 2) == 28
  {
  }

  // ----- the year and month tables -----

  lemma DivisibleBy100(y: int)
    requires y % 100 == 0
    ensures y % 4 == 0
  {
    assert y == 4 * (25 * (y / 100));
  }

  lemma DivisibleBy400(y: int)
    requires y % 400 == 0
    ensures y % 100 == 0
  {
    assert y == 100 * (4 * (y / 400));
  }

  /** Moving one year on adds that year's length. */
  lemma DaysBeforeYearStep(y: int)
    requires y >= 1
    ensures DaysBeforeYear(y + 1) == DaysBeforeYear(y) + DaysInYear(y)
  {
    var p: nat := y - 1;
    assert y / 4 == p / 4 + (if y % 4 == 0 then 1 else 0);
    assert y / 100 == p / 100 + (if y % 100 == 0 then 1 else 0);
    assert y / 400 == p / 400 + (if y % 400 == 0 then 1 else 0);
    if y % 100 == 0 { DivisibleBy100(y); }
    if y % 400 == 0 { DivisibleBy400(y); }
  }

  lemma {:induction false} DaysBeforeYearGrows(a: int, b: int)
    requires 1 <= a <= b
    ensures DaysBeforeYear(a) + 365 * (b - a) <= DaysBeforeYear(b)
    decreases b - a
  {
    if a < b {
      DaysBeforeYearStep(a);
      DaysBeforeYearGrows(a + 1, b);
    }
  }

  lemma MaxOrdinalIsEndOfYear9999()
    ensures DaysBeforeYear(MaxYear + 1) == MaxOrdinal
    ensures Ordinal(Date(MaxYear, 12, 31)) == MaxOrdinal
  {
  }

  lemma DaysBeforeMonthStep(y: int, m: int)
    requires 1 <= m < 12
    ensures DaysBeforeMonth(y, m + 1) == DaysBeforeMonth(y, m) + DaysInMonth(y, m)
  {
  }

  lemma {:induction false} DaysBeforeMonthGrows(y: int, a: int, b: int)
    requires 1 <= a < b <= 12
    ensures DaysBeforeMonth(y, a) + DaysInMonth(y, a) <= DaysBeforeMonth(y, b)
    decreases b - a
  {
    DaysBeforeMonthStep(y, a);
    if a + 1 < b {
      DaysBeforeMonthGrows(y, a + 1, b);
    }
  }

  lemma EndOfYear(y: int)
    ensures DaysBeforeMonth(y, 12) + DaysInMonth(y, 12) == DaysInYear(y)
  {
  }

  /** A date's ordinal lies within the span of its year. */
  lemma OrdinalWithinYear(d: Date)
    requires InCalendar(d)
    ensures DaysBeforeYear(d.year) < Ordinal(d) <= DaysBeforeYear(d.year + 1)
  {
    DaysBeforeYearStep(d.year);
    EndOfYear(d.year);
    if d.month < 12 {
      DaysBeforeMonthGrows(d.year, d.month, 12);
    }
  }

  /** Python's year range is exactly the ordinals 1..MaxOrdinal. */
  lemma OrdinalRange(d: Date)
    requires InCalendar(d)
    ensures 1 <= Ordinal(d)
    ensures Valid(d) <==> Ordinal(d) <= MaxOrdinal
  {
    OrdinalWithinYear(d);
    MaxOrdinalIsEndOfYear9999();
    if d.year <= MaxYear {
      DaysBeforeYearGrows(d.year + 1, MaxYear + 1);
    } else {
      DaysBeforeYearGrows(MaxYear + 1, d.year);
    }
  }

  // ----- ordinals order dates -----

  /** Calendar order of two dates. */
  predicate Before(a: Date, b: Date) {
    || a.year < b.year
    || (a.year == b.year && a.month < b.month)
    || (a.year == b.year && a.month == b.month && a.day < b.day)
  }

  lemma OrdinalIncreasing(a: Date, b: Date)
    requires InCalendar(a) && InCalendar(b) && Before(a, b)
    ensures Ordinal(a) < Ordinal(b)
  {
    if a.year < b.year {
      OrdinalWithinYear(a);
      OrdinalWithinYear(b);
      DaysBeforeYearGrows(a.year + 1, b.year);
    } else if a.month < b.month {
      DaysBeforeMonthGrows(a.year, a.month, b.month);
    }
  }

  /** `toordinal` is one-to-one: `fromordinal` has exactly one answer. */
  lemma OrdinalInjective(a: Date, b: Date)
    requires InCalendar(a) && InCalendar(b) && Ordinal(a) == Ordinal(b)
    ensures a == b
  {
    if Before(a, b) {
      OrdinalIncreasing(a, b);
    } else if Before(b, a) {
      OrdinalIncreasing(b, a);
    }
  }

  // ----- adding days -----

  /** The next calendar day. */
  function Tomorrow(d: Date): (e: Date)
    requires InCalendar(d)
    ensures InCalendar(e)
  {
    if d.day < DaysInMonth(d.year, d.month) then Date(d.year, d.month, d.day + 1)
    else if d.month < 12 then Date(d.year, d.month + 1, 1)
    else Date(d.year + 1, 1, 1)
  }

  /** The day `n` days after `d`, with no upper year bound. */
  function Advance(d: Date, n: nat): (e: Date)
    requires InCalendar(d)
    ensures InCalendar(e)
  {
    if n == 0 then d else Tomorrow(Advance(d, n - 1))
  }

  /** The next day is the next ordinal. */
  lemma TomorrowOrdinal(d: Date)
    requires InCalendar(d)
    ensures Ordinal(Tomorrow(d)) == Ordinal(d) + 1
  {
    if d.day == DaysInMonth(d.year, d.month) {
      if d.month < 12 {
        DaysBeforeMonthStep(d.year, d.month);
      } else {
        DaysBeforeYearStep(d.year);
        EndOfYear(d.year);
      }
    }
  }

  lemma {:induction false} AdvanceOrdinal(d: Date, n: nat)
    requires InCalendar(d)
    ensures Ordinal(Advance(d, n)) == Ordinal(d) + n
  {
    if n > 0 {
      AdvanceOrdinal(d, n - 1);
      TomorrowOrdinal(Advance(d, n - 1));
    }
  }

  /** `d + timedelta(days=n)`: the date whose ordinal is n more, or
      OverflowError when that ordinal is past 9999-12-31. */
  function AddDays(d: Date, n: nat): (r: Result<Date>)
    requires Valid(d)
    ensures r.Ok? <==> Ordinal(d) + n <= MaxOrdinal
    ensures r.Ok? ==> Valid(r.value) && Ordinal(r.value) == Ordinal(d) + n
    ensures r.Err? ==> r.error == OverflowError
  {
    if Ordinal(d) + n <= MaxOrdinal then
      var e := Advance(d, n);
      AdvanceOrdinal(d, n);
      OrdinalRange(e);
      Ok(e)
    else
      Err(OverflowError)
  }

  /** AddDays agrees with Python's `date.fromordinal(d.toordinal() + n)`:
      any valid date with the shifted ordinal is the one it returns. */
  lemma AddDaysIsFromOrdinal(d: Date, n: nat, e: Date)
    requires Valid(d) && Valid(e) && Ordinal(e) == Ordinal(d) + n
    ensures AddDays(d, n) == Ok(e)
  {
    OrdinalRange(e);
    OrdinalInjective(AddDays(d, n).value, e);
  }

  /** A successful AddDays is n steps of Tomorrow. */
  lemma AddDaysIsAdvance(d: Date, n: nat)
    requires Valid(d) && AddDays(d, n).Ok?
    ensures AddDays(d, n).value == Advance(d, n)
  {
  }

  /** Every n days the weekday moves on by n modulo 7. */
  lemma WeekdayShift(d: Date, n: nat)
    requires Valid(d) && AddDays(d, n).Ok?
    ensures Weekday(AddDays(d, n).value) == WeekdayAfter(Weekday(d), n)
  {
    var e := AddDays(d, n).value;
    assert Ordinal(e) == Ordinal(d) + n;
    ModSeven(Ordinal(d) + 6, n);
  }

  lemma ModSeven(o: int, n: nat)
    ensures (o + n) % 7 == (o % 7 + n) % 7
  {
    var z := o % 7 + n;
    assert o == 7 * (o / 7) + o % 7;
    assert z == 7 * (z / 7) + z % 7;
    assert o + n == 7 * (o / 7 + z / 7) + z % 7;
  }

  /** 0001-01-01 is a Monday and 2026-10-14 a Wednesday. */
  lemma WeekdayAnchors()
    ensures Weekday(Date(1, 1, 1)) == 0
    ensures Weekday(Date(2026, 10, 14)) == 2
  {
  }

  /** Up to 28 days on, the date is still in the same month or in the next one. */
  lemma {:induction false} AdvanceWithinNextMonth(d: Date, n: nat)
    requires InCalendar(d) && n <= 28
    ensures var e := Advance(d, n);
      if d.day + n <= DaysInMonth(d.year, d.month) then
        e == Date(d.year, d.month, d.day + n)
      else
        (e.year, e.month) == NextMonth(d.year, d.month) &&
        e.day == d.day + n - DaysInMonth(d.year, d.month)
  {
    if n > 0 {
      AdvanceWithinNextMonth(d, n - 1);
      var p := Advance(d, n - 1);
      assert Advance(d, n) == Tomorrow(p);
      var dim := DaysInMonth(d.year, d.month);
      if d.day + n - 1 < dim {
        assert p == Date(d.year, d.month, d.day + n - 1);
        assert Tomorrow(p) == Date(d.year, d.month, d.day + n);
      } else if d.day + n - 1 == dim {
        assert p == Date(d.year, d.month, dim);
        assert (Tomorrow(p).year, Tomorrow(p).month) == NextMonth(d.year, d.month) && Tomorrow(p).day == 1;
      } else {
        assert p.day == d.day + n - 1 - dim < 28 <= DaysInMonth(p.year, p.month);
        assert Tomorrow(p) == Date(p.year, p.month, p.day + 1);
      }
    }
  }
}
