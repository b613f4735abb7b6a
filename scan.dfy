/** One run of the bot: the primary check of 芝スポーツセンター for the
    coming Saturday, through the date picker; the secondary check of six
    more facilities; the result dict, in that order; and the message. */
module Scan {
  import opened Base
  import opened Text
  import opened Calendar
  import opened TargetDate
  import opened DateFormat
  import opened Navigator
  import opened Availability
  import opened Report

  const PrimaryFacility: string := "芝スポーツセンター"
  /** The weekday token the run passes to the primary check. */
  const PrimaryToken: string := "sat"
  const NextFacilities: seq<string> := [
    "体育武道センター",
    "鳩ヶ谷スポーツセンター",
    "戸塚スポーツセンター",
    "西スポーツセンター",
    "安行スポーツセンター",
    "東スポーツセンター"
  ]
  const Facilities: seq<string> := [PrimaryFacility] + NextFacilities

  /** The seven facility names are pairwise different (their first
      characters already are). */
  lemma FacilitiesDistinct()
    ensures |Facilities| == 7
    ensures forall i, j :: 0 <= i < j < |Facilities| ==> Facilities[i] != Facilities[j]
  {
    var firsts := ['芝', '体', '鳩', '戸', '西', '安', '東'];
    assert forall i :: 0 <= i < 7 ==> |Facilities[i]| > 0 && Facilities[i][0] == firsts[i];
  }

  /** What `check_for_taikukan` returns, or the exception it raises: a
      token `int()` rejects, a target day past 9999-12-31 and an unreadable
      picker heading raise, in that order; otherwise the availability read
      from the day's rows and the day's `%Y%m%d` key. */
  function PrimaryOutcome(token: string, today: Date, heading: string, rows: seq<Row>): (r: Result<(bool, string)>)
    requires Valid(today)
    ensures r.Err? ==> r.error == ValueError || r.error == OverflowError
    ensures r.Ok? ==> |r.value.1| == 8 && AllDigits(r.value.1)
    ensures r.Ok? ==> ParseCalendarTitle(heading).Ok? && DayOfWeekIndex(token).Ok?
  {
    var target :- DayOfWeekIndex(token);
    var day :- ResolveTarget(today, target);
    match ParseCalendarTitle(heading)
    case Err(e) => Err(e)
    case Ok(_) => Ok((PrimaryAvailable(rows), CompactKey(day)))
  }

  /** `check_for_taikukan` on the picker `w`: resolve the target day, move
      the picker to its month, read the day's rows.  `heading` is the text
      the page shows above the picker and `rows` the rows of the day's page;
      both are read from the page in the source.  When the heading names the
      month on show, ResolvedTargetIsOnePageAway says where the picker ends. */
  method CheckPrimary(w: CalendarWidget, token: string, today: Date, heading: string, rows: seq<Row>)
    returns (r: Result<(bool, string)>)
    requires w.Valid() && Valid(today)
    modifies w
    ensures w.Valid()
    ensures r == PrimaryOutcome(token, today, heading, rows)
    ensures r.Err? ==> unchanged(w)
    ensures r.Ok? ==>
      var day := ResolveTarget(today, DayOfWeekIndex(token).value).value;
      var nav := Navigate((old(w.year), old(w.month)), heading, day).value;
      (w.year, w.month) == nav.0 && w.nextClicks == old(w.nextClicks) + nav.1
  {
    var target := DayOfWeekIndex(token);
    if target.Err? {
      return Err(target.error);
    }
    var day := ResolveTarget(today, target.value);
    if day.Err? {
      return Err(day.error);
    }
    var clicked := w.ShowMonthOf(heading, day.value);
    if clicked.Err? {
      return Err(clicked.error);
    }
    var key := CompactKey(day.value);
    var available := PrimaryAvailable(rows);
    r := Ok((available, key));
  }

  /** The primary check for the run's token: it fails only with
      OverflowError when the coming Saturday is past 9999-12-31 and with
      ValueError when the heading does not read; otherwise its key reads
      back as a Saturday 1 to 7 days after today. */
  lemma SaturdayCheckSpec(today: Date, heading: string, rows: seq<Row>)
    requires Valid(today)
    ensures var r := PrimaryOutcome(PrimaryToken, today, heading, rows);
      && (r.Err? <==> ResolveTarget(today, 5).Err? || ParseCalendarTitle(heading).Err?)
      && (r.Err? && ResolveTarget(today, 5).Err? ==> r.error == OverflowError)
      && (r.Err? && ResolveTarget(today, 5).Ok? ==> r.error == ValueError)
      && (r.Ok? ==> r.value.0 == PrimaryAvailable(rows))
    ensures PrimaryOutcome(PrimaryToken, today, heading, rows).Ok? ==>
      var t := ParseCompactKey(PrimaryOutcome(PrimaryToken, today, heading, rows).value.1);
      t.Ok? && Weekday(t.value) == 5 && 1 <= Ordinal(t.value) - Ordinal(today) <= 7
  {
    assert DayOfWeekIndex(PrimaryToken) == Ok(5);
    ResolveTargetSpec(today, 5);
    if ResolveTarget(today, 5).Ok? {
      CompactKeyRoundTrip(ResolveTarget(today, 5).value);
    }
  }

  /** A token `int()` rejects fails the check before anything else is read. */
  lemma BadTokenFailsFirst(token: string, today: Date, heading: string, rows: seq<Row>)
    requires Valid(today) && DayOfWeekIndex(token).Err?
    ensures PrimaryOutcome(token, today, heading, rows) == Err(ValueError)
  {
    assert DayOfWeekIndex(token) == ParseInt(token);
  }

  /** The secondary check's answer for each facility of the list, each
      read from that facility's page. */
  function SecondaryResults(pages: seq<seq<Row>>): (r: seq<bool>)
    ensures |r| == |pages| && forall i :: 0 <= i < |pages| ==> r[i] == SecondaryAvailable(pages[i])
  {
    seq(|pages|, i requires 0 <= i < |pages| => SecondaryAvailable(pages[i]))
  }

  /** The `data` dict of `run` once every facility has been checked, from
      the primary result and the secondary results in list order. */
  function ScanResult(primary: bool, results: seq<bool>): (d: Dict)
    requires |results| == |NextFacilities|
    ensures |d| == |Facilities|
    ensures forall j :: 0 <= j < |d| ==> d[j].0 == Facilities[j]
    ensures d[0].1 == primary
    ensures forall i :: 0 <= i < |results| ==> d[i + 1].1 == results[i]
  {
    [(PrimaryFacility, primary)]
      + seq(|NextFacilities|, i requires 0 <= i < |NextFacilities| => (NextFacilities[i], results[i]))
  }

  /** The next facility is not among the keys of the entries before it. */
  lemma ScanResultPrefix(primary: bool, results: seq<bool>, n: int)
    requires |results| == |NextFacilities| && 1 <= n < |Facilities|
    ensures Facilities[n] !in Keys(ScanResult(primary, results)[..n])
  {
    FacilitiesDistinct();
    var ks := Keys(ScanResult(primary, results)[..n]);
    assert forall j :: 0 <= j < n ==> ks[j] == Facilities[j];
  }

  /** One assignment of the loop appends the next facility's entry. */
  lemma ScanStep(primary: bool, results: seq<bool>, i: int)
    requires |results| == |NextFacilities| && 0 <= i < |NextFacilities|
    ensures var full := ScanResult(primary, results);
      Put(full[..i + 1], NextFacilities[i], results[i]) == full[..i + 2]
  {
    var full := ScanResult(primary, results);
    var k := NextFacilities[i];
    assert k == Facilities[i + 1];
    ScanResultPrefix(primary, results, i + 1);
    assert full[i + 1] == (k, results[i]);
    assert full[..i + 2] == full[..i + 1] + [full[i + 1]];
  }

  /** The dict is filled as in `run`: the primary result first, then one
      assignment per facility of the list, each with the secondary check of
      that facility's page. */
  method BuildScanResult(primary: bool, pages: seq<seq<Row>>) returns (data: Dict)
    requires |pages| == |NextFacilities|
    ensures data == ScanResult(primary, SecondaryResults(pages))
  {
    ghost var results := SecondaryResults(pages);
    ghost var full := ScanResult(primary, results);
    data := [(PrimaryFacility, primary)];
    assert data == full[..1];
    for i := 0 to |NextFacilities|
      invariant data == full[..i + 1]
    {
      var result := SecondaryAvailable(pages[i]);
      ScanStep(primary, results, i);
      data := Put(data, NextFacilities[i], result);
    }
    assert full[..|NextFacilities| + 1] == full;
  }

  /** The dict holds the seven facilities, each once, in the order the run
      checks them, each with its own check's result; it reports something
      available exactly when one of the checks did. */
  lemma ScanResultSpec(primary: bool, results: seq<bool>)
    requires |results| == |NextFacilities|
    ensures var d := ScanResult(primary, results);
      && Keys(d) == Facilities
      && DistinctKeys(d)
      && Get(d, PrimaryFacility) == Some(primary)
      && (forall i :: 0 <= i < |NextFacilities| ==> Get(d, NextFacilities[i]) == Some(results[i]))
      && (AnyAvailable(d) <==> primary || true in results)
  {
    ScanResultKeys(primary, results);
    var d := ScanResult(primary, results);
    forall i | 0 <= i < |NextFacilities|
      ensures Get(d, NextFacilities[i]) == Some(results[i])
    {
      GetDistinct(d, i + 1);
    }
    GetDistinct(d, 0);
    ScanResultAny(primary, results);
  }

  lemma ScanResultKeys(primary: bool, results: seq<bool>)
    requires |results| == |NextFacilities|
    ensures var d := ScanResult(primary, results);
      && Keys(d) == Facilities
      && DistinctKeys(d)
      && d[0] == (PrimaryFacility, primary)
      && forall i :: 0 <= i < |results| ==> d[i + 1] == (NextFacilities[i], results[i])
  {
    FacilitiesDistinct();
  }

  lemma ScanResultAny(primary: bool, results: seq<bool>)
    requires |results| == |NextFacilities|
    ensures AnyAvailable(ScanResult(primary, results)) <==> primary || true in results
  {
    var d := ScanResult(primary, results);
    if AnyAvailable(d) && !primary {
      var j :| 0 <= j < |d| && d[j].1;
      assert results[j - 1];
    }
    if !primary && true in results {
      var i :| 0 <= i < |results| && results[i];
      assert d[i + 1].1;
    }
  }

  /** What one run builds: the message, or the exception the primary
      check raised. */
  function RunOutcome(today: Date, executionTime: string, heading: string, primaryRows: seq<Row>, pages: seq<seq<Row>>): (r: Result<string>)
    requires Valid(today) && |pages| == |NextFacilities|
    ensures r.Err? ==> r.error == ValueError || r.error == OverflowError
  {
    var primary :- PrimaryOutcome(PrimaryToken, today, heading, primaryRows);
    Message(primary.1, executionTime, ScanResult(primary.0, SecondaryResults(pages)))
  }

  /** `run` after the browser has been opened on the reservation page. */
  method Run(w: CalendarWidget, today: Date, executionTime: string, heading: string, primaryRows: seq<Row>, pages: seq<seq<Row>>)
    returns (msg: Result<string>)
    requires w.Valid() && Valid(today) && |pages| == |NextFacilities|
    modifies w
    ensures msg == RunOutcome(today, executionTime, heading, primaryRows, pages)
    ensures w.Valid()
    ensures PrimaryOutcome(PrimaryToken, today, heading, primaryRows).Err? ==> unchanged(w)
    ensures PrimaryOutcome(PrimaryToken, today, heading, primaryRows).Ok? ==>
      var nav := Navigate((old(w.year), old(w.month)), heading, ResolveTarget(today, 5).value).value;
      (w.year, w.month) == nav.0 && w.nextClicks == old(w.nextClicks) + nav.1
  {
    assert DayOfWeekIndex(PrimaryToken) == Ok(5);
    var primary := CheckPrimary(w, PrimaryToken, today, heading, primaryRows);
    if primary.Err? {
      return Err(primary.error);
    }
    var (result, key) := primary.value;
    var data := BuildScanResult(result, pages);
    msg := RenderMessage(key, executionTime, data);
  }

  /** A run that gets past the primary check always builds a message: the
      long one, dated with the coming Saturday written `%Y-%m-%d`, when
      any facility is available, and the short one otherwise. */
  lemma RunSpec(today: Date, executionTime: string, heading: string, primaryRows: seq<Row>, pages: seq<seq<Row>>)
    requires Valid(today) && |pages| == |NextFacilities|
    ensures RunOutcome(today, executionTime, heading, primaryRows, pages).Err?
        <==> PrimaryOutcome(PrimaryToken, today, heading, primaryRows).Err?
    ensures PrimaryOutcome(PrimaryToken, today, heading, primaryRows).Ok? ==>
      var t := ResolveTarget(today, 5).value;
      var d := ScanResult(PrimaryAvailable(primaryRows), SecondaryResults(pages));
      RunOutcome(today, executionTime, heading, primaryRows, pages)
        == Ok(if AnyAvailable(d) then AvailableMessage(DashedDate(t), executionTime, d) else NoneMessage(executionTime))
  {
    assert DayOfWeekIndex(PrimaryToken) == Ok(5);
    var p := PrimaryOutcome(PrimaryToken, today, heading, primaryRows);
    if p.Ok? {
      var t := ResolveTarget(today, 5).value;
      var d := ScanResult(p.value.0, SecondaryResults(pages));
      assert p.value.1 == CompactKey(t);
      if AnyAvailable(d) {
        MessageOfValidKey(t, executionTime, d);
      }
    }
  }
}
