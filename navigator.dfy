/** The reservation page's date picker.  The primary check reads the
    picker's heading, and presses its "next month" control (翌月表示) once
    when the heading's (year, month) is not the target's, never backwards and
    never twice. */
module Navigator {
  import opened Base
  import opened Text
  import opened Calendar
  import opened TargetDate
  import opened DateFormat

  /** The (year, month) a date falls in. */
  function MonthOf(d: Date): (int, int) {
    (d.year, d.month)
  }

  /** The navigation decision: from the month on show and the heading the
      page reports, the month on show afterwards and the number of presses
      of "next month". */
  function Navigate(shown: (int, int), heading: string, target: Date): (r: Result<((int, int), nat)>)
    ensures r.Err? <==> ParseCalendarTitle(heading).Err?
    ensures r.Err? ==> r.error == ValueError
    ensures r.Ok? ==> r.value.1 <= 1
    ensures r.Ok? ==> (r.value.1 == 1 <==> ParseCalendarTitle(heading).value != MonthOf(target))
    ensures r.Ok? ==> r.value.0 == if r.value.1 == 1 then NextMonth(shown.0, shown.1) else shown
  {
    match ParseCalendarTitle(heading)
    case Err(e) => Err(e)
    case Ok(headingMonth) =>
      if headingMonth != MonthOf(target) then Ok((NextMonth(shown.0, shown.1), 1)) else Ok((shown, 0))
  }

  /** The date picker: the month it shows and how often "next month" was pressed. */
  class CalendarWidget {
    var year: int
    var month: int
    var nextClicks: nat

    ghost predicate Valid()
      reads this
    {
      1 <= month <= 12
    }

    constructor (year: int, month: int)
      requires 1 <= month <= 12
      ensures Valid() && this.year == year && this.month == month && nextClicks == 0
    {
      this.year := year;
      this.month := month;
      nextClicks := 0;
    }

    /** Press "next month" once: the picker moves on by one month. */
    method PressNextMonth()
      requires Valid()
      modifies this
      ensures Valid()
      ensures (year, month) == NextMonth(old(year), old(month))
      ensures nextClicks == old(nextClicks) + 1
    {
      if month == 12 {
        year, month := year + 1, 1;
      } else {
        month := month + 1;
      }
      nextClicks := nextClicks + 1;
    }

    /** Read the heading and press "next month" only if the heading's
        (year, month) differs from the target's; an unreadable heading is a
        ValueError and nothing is pressed.  `clicked` tells whether it pressed.
        `heading` is the text the page shows above the picker; the source
        reads it from the page, so it is a parameter here, and the last
        postcondition covers the case where it names the month on show. */
    method ShowMonthOf(heading: string, target: Date) returns (clicked: Result<bool>)
      requires Valid()
      modifies this
      ensures Valid()
      ensures ParseCalendarTitle(heading) == Ok((old(year), old(month)))
        && (MonthOf(target) == (old(year), old(month)) || MonthOf(target) == NextMonth(old(year), old(month)))
        ==> clicked.Ok? && (year, month) == MonthOf(target)
      ensures clicked.Err? <==> ParseCalendarTitle(heading).Err?
      ensures clicked.Err? ==> clicked.error == ValueError && unchanged(this)
      ensures clicked.Ok? ==>
        var nav := Navigate((old(year), old(month)), heading, target).value;
        && (year, month) == nav.0
        && nextClicks == old(nextClicks) + nav.1
        && (clicked.value <==> nav.1 == 1)
    {
      var headingMonth := ParseCalendarTitle(heading);
      if headingMonth.Err? {
        return Err(headingMonth.error);
      }
      if headingMonth.value != MonthOf(target) {
        PressNextMonth();
        clicked := Ok(true);
      } else {
        clicked := Ok(false);
      }
    }
  }

  /** When the heading is the text of the month on show and the target is
      in that month or the next, one navigation shows the target's month. */
  lemma NavigateReachesTarget(shown: (int, int), padded: bool, pre: string, post: string, target: Date)
    requires 1 <= shown.0 <= 9999 && 1 <= shown.1 <= 12
    requires AllSpace(pre) && AllSpace(post)
    requires MonthOf(target) == shown || MonthOf(target) == NextMonth(shown.0, shown.1)
    ensures var heading := pre + TitleText(shown.0, shown.1, padded) + post;
      Navigate(shown, heading, target) == Ok((MonthOf(target), if MonthOf(target) == shown then 0 else 1))
  {
    TitleRoundTrip(pre, shown.0, shown.1, padded, post);
  }

  /** The resolved target is at most 7 days ahead, so when the picker opens
      on today's month a single press (or none) reaches the target's month. */
  lemma ResolvedTargetIsOnePageAway(today: Date, target: int, t: Date, padded: bool)
    requires Calendar.Valid(today) && 0 <= target <= 6 && ResolveTarget(today, target) == Ok(t)
    ensures Navigate(MonthOf(today), TitleText(today.year, today.month, padded), t)
         == Ok((MonthOf(t), if MonthOf(t) == MonthOf(today) then 0 else 1))
  {
    ResolvedTargetMonth(today, target, t);
    BareTitleParses(today.year, today.month, padded);
  }

  /** The resolved target falls in today's month or the next one. */
  lemma ResolvedTargetMonth(today: Date, target: int, t: Date)
    requires Calendar.Valid(today) && 0 <= target <= 6 && ResolveTarget(today, target) == Ok(t)
    ensures MonthOf(t) == MonthOf(today) || MonthOf(t) == NextMonth(today.year, today.month)
  {
    var k := DaysUntil(Weekday(today), target);
    assert k <= 7 by { DaysUntilSpec(Weekday(today), target); }
    AddDaysIsAdvance(today, k);
    AdvanceWithinNextMonth(today, k);
  }
}
