/** Which date the primary check looks at: the weekday token of
    `check_for_taikukan` is read as a Monday = 0 index, and the target is the
    next date with that weekday strictly after today (a week ahead when today
    already has it). */
module TargetDate {
  import opened Base
  import opened Text
  import opened Calendar

  /** The `match day_of_week` of `check_for_taikukan`: three names, and any
      other token read with `int()`. */
  function DayOfWeekIndex(token: string): (r: Result<int>)
    ensures r.Err? ==> r.error == ValueError
    ensures r.Err? ==> token != "sat" && token != "sun" && token != "wed"
  {
    if token == "sat" then Ok(5)
    else if token == "sun" then Ok(6)
    else if token == "wed" then Ok(2)
    else ParseInt(token)
  }

  /** Days from a day with weekday `today` to the next day with weekday
      `target`, never 0.  Python's `%` floors and Dafny's is Euclidean; with
      the divisor 7 both give the same non-negative remainder. */
  function DaysUntil(today: int, target: int): (r: nat)
    ensures r <= 7
    ensures r == 7 <==> today == target
    ensures (today + r - target) % 7 == 0
  {
    if today == target then 7 else (target - today) % 7
  }

  /** The next target day of `check_for_taikukan`: `today + timedelta(days)`
      with the offset above, which may raise OverflowError near 9999-12-31.
      Any integer index is accepted, as in the source. */
  function ResolveTarget(today: Date, target: int): (r: Result<Date>)
    requires Valid(today)
    ensures r.Err? ==> r.error == OverflowError
    ensures r.Ok? ==> Valid(r.value) && 0 <= Ordinal(r.value) - Ordinal(today) <= 7
  {
    AddDays(today, DaysUntil(Weekday(today), target))
  }

  /** The offset is 1..7, lands on the target weekday, is 7 exactly when the
      weekdays agree, and no earlier day of the week has the target weekday. */
  lemma DaysUntilSpec(today: int, target: int)
    requires 0 <= today <= 6 && 0 <= target <= 6
    ensures var k := DaysUntil(today, target);
      && 1 <= k <= 7
      && WeekdayAfter(today, k) == target
      && (k == 7 <==> today == target)
      && forall j :: 1 <= j < k ==> WeekdayAfter(today, j) != target
  {
  }

  /** The resolved date is 1 to 7 days after today, has the target weekday,
      and is 7 days ahead exactly when today has that weekday, so it is never
      today; the call fails only with OverflowError, exactly when that date
      would be past 9999-12-31. */
  lemma ResolveTargetSpec(today: Date, target: int)
    requires Valid(today) && 0 <= target <= 6
    ensures var k := DaysUntil(Weekday(today), target);
      ResolveTarget(today, target).Err? <==> Ordinal(today) + k > MaxOrdinal
    ensures ResolveTarget(today, target).Err? ==> ResolveTarget(today, target).error == OverflowError
    ensures ResolveTarget(today, target).Ok? ==>
      var t := ResolveTarget(today, target).value;
      && Valid(t)
      && 1 <= Ordinal(t) - Ordinal(today) <= 7
      && t != today
      && Weekday(t) == target
      && (Ordinal(t) - Ordinal(today) == 7 <==> Weekday(today) == target)
  {
    var k := DaysUntil(Weekday(today), target);
    DaysUntilSpec(Weekday(today), target);
    if AddDays(today, k).Ok? {
      WeekdayShift(today, k);
    }
  }

  /** The resolved date is the FIRST future date with the target weekday:
      no date strictly between today and it has that weekday. */
  lemma ResolveTargetIsNext(today: Date, target: int, t: Date, e: Date)
    requires Valid(today) && 0 <= target <= 6 && ResolveTarget(today, target) == Ok(t)
    requires Valid(e) && Ordinal(today) < Ordinal(e) < Ordinal(t)
    ensures Weekday(e) != target
  {
    var k := DaysUntil(Weekday(today), target);
    assert AddDays(today, k) == Ok(t);
    NextWeekdayGap(Ordinal(today), Ordinal(e), target);
  }

  /** The same on ordinals: no ordinal strictly between `o` and the
      resolved one has the target weekday. */
  lemma NextWeekdayGap(o: int, oe: int, target: int)
    requires 0 <= target <= 6 && o < oe < o + DaysUntil((o + 6) % 7, target)
    ensures (oe + 6) % 7 != target
  {
    var w := (o + 6) % 7;
    DaysUntilSpec(w, target);
    var j := oe - o;
    ShiftWeekday(o, j);
    assert oe == o + j;
  }

  /** The weekday of ordinal `o + j`, from that of ordinal `o`. */
  lemma ShiftWeekday(o: int, j: nat)
    ensures (o + j + 6) % 7 == WeekdayAfter((o + 6) % 7, j)
  {
    ModSeven(o + 6, j);
  }

  /** The offset for an index outside 0..6 from weekday `w`. */
  lemma OutOfRangeOffset(w: int, target: int)
    requires 0 <= w <= 6 && !(0 <= target <= 6)
    ensures var k := DaysUntil(w, target);
      && k <= 6
      && WeekdayAfter(w, k) == target % 7
      && (k == 0 <==> w == target % 7)
  {
    var k := DaysUntil(w, target);
    assert k == (target - w) % 7;
    ModSeven(target - w, w);
  }

  /** An index outside 0..6 never equals `today.weekday()`, so the offset
      is `(index - weekday) % 7`: 0 to 6 days, landing on the weekday
      `index % 7`, and today itself when today has that weekday. */
  lemma ResolveOutOfRangeIndex(today: Date, target: int, t: Date)
    requires Valid(today) && !(0 <= target <= 6) && ResolveTarget(today, target) == Ok(t)
    ensures 0 <= Ordinal(t) - Ordinal(today) <= 6
    ensures Weekday(t) == target % 7
    ensures t == today <==> Weekday(today) == target % 7
  {
    var w := Weekday(today);
    var k := DaysUntil(w, target);
    OutOfRangeOffset(w, target);
    WeekdayShift(today, k);
    if k == 0 {
      OrdinalInjective(t, today);
    }
  }

  /** Index 7 on a Monday is read as "today", unlike the named tokens. */
  lemma SevenOnMondayIsToday()
    ensures DayOfWeekIndex("7") == Ok(7)
    ensures ResolveTarget(Date(2026, 10, 12), 7) == Ok(Date(2026, 10, 12))
  {
    NumericTokens(7);
    assert IntToString(7) == "7";
    OctoberOrdinals();
    assert DaysUntil(0, 7) == 0;
    AddDaysIsFromOrdinal(Date(2026, 10, 12), 0, Date(2026, 10, 12));
  }

  /** The day numbers of the October 2026 dates the examples use. */
  lemma OctoberOrdinals()
    ensures Ordinal(Date(2026, 10, 12)) == 739901
    ensures Ordinal(Date(2026, 10, 14)) == 739903
    ensures Ordinal(Date(2026, 10, 17)) == 739906
    ensures Ordinal(Date(2026, 10, 18)) == 739907
    ensures Ordinal(Date(2026, 10, 24)) == 739913
  {
  }

  /** The three names are the weekdays of a known Saturday, Sunday and Wednesday. */
  lemma NamedTokensAreTheirWeekdays()
    ensures DayOfWeekIndex("sat") == Ok(Weekday(Date(2026, 10, 17)))
    ensures DayOfWeekIndex("sun") == Ok(Weekday(Date(2026, 10, 18)))
    ensures DayOfWeekIndex("wed") == Ok(Weekday(Date(2026, 10, 14)))
  {
    OctoberOrdinals();
  }

  /** A token that does not start like a name is handed to `int()`. */
  lemma UnnamedToken(t: string)
    requires |t| > 0 && t[0] != 's' && t[0] != 'w'
    ensures DayOfWeekIndex(t) == ParseInt(t)
  {
    assert t != "sat" by { assert "sat"[0] == 's'; }
    assert t != "sun" by { assert "sun"[0] == 's'; }
    assert t != "wed" by { assert "wed"[0] == 'w'; }
  }

  /** Any other token is `int(token)`: the numeral of an integer within
      `int()`'s digit limit is read as that integer. */
  lemma NumericTokens(n: int)
    requires WithinDigitLimit(n)
    ensures DayOfWeekIndex(IntToString(n)) == Ok(n)
  {
    ParseIntRoundTrip(n);
    var s := IntToString(n);
    assert s[0] == '-' || IsDigit(s[0]);
    UnnamedToken(s);
  }

  /** A numeral may be padded with whitespace, as `int()` allows. */
  lemma PaddedNumericTokens(pre: string, n: nat, post: string)
    requires AllIntSpace(pre) && AllIntSpace(post) && |NatToString(n)| <= MaxStrDigits
    ensures DayOfWeekIndex(pre + NatToString(n) + post) == Ok(n)
  {
    var digits := NatToString(n);
    var t := pre + digits + post;
    if pre == [] {
      assert t == digits + post;
      assert t[0] == digits[0];
    } else {
      assert t[0] == pre[0];
    }
    UnnamedToken(t);
    ParseIntPadded(pre, n, post);
  }

  /** Other words are not numerals: `int()` raises ValueError. */
  lemma WordTokenIsValueError()
    ensures DayOfWeekIndex("saturday") == Err(ValueError)
  {
    IntStripTrimmed("saturday");
  }

  /** Today a Monday: the Saturday five days ahead. */
  lemma MondayToSaturday()
    ensures Weekday(Date(2026, 10, 12)) == 0
    ensures ResolveTarget(Date(2026, 10, 12), 5) == Ok(Date(2026, 10, 17))
  {
    OctoberOrdinals();
    assert DaysUntil(0, 5) == 5;
    AddDaysIsFromOrdinal(Date(2026, 10, 12), 5, Date(2026, 10, 17));
  }

  /** Today a Saturday: not today, but the Saturday a week later. */
  lemma SaturdayToNextSaturday()
    ensures Weekday(Date(2026, 10, 17)) == 5
    ensures ResolveTarget(Date(2026, 10, 17), 5) == Ok(Date(2026, 10, 24))
  {
    OctoberOrdinals();
    assert DaysUntil(5, 5) == 7;
    AddDaysIsFromOrdinal(Date(2026, 10, 17), 7, Date(2026, 10, 24));
  }

  /** Across a year end: Monday 2026-12-28 to Saturday 2027-01-02. */
  lemma AcrossYearEnd()
    ensures Weekday(Date(2026, 12, 28)) == 0
    ensures ResolveTarget(Date(2026, 12, 28), 5) == Ok(Date(2027, 1, 2))
  {
    YearEndOrdinals();
    assert DaysUntil(0, 5) == 5;
    AddDaysIsFromOrdinal(Date(2026, 12, 28), 5, Date(2027, 1, 2));
  }

  lemma YearEndOrdinals()
    ensures Ordinal(Date(2026, 12, 28)) == 739978
    ensures Ordinal(Date(2027, 1, 2)) == 739983
  {
  }
}
