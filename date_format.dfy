/** The three date texts of the scan.  `strftime("%Y%m%d")` gives the compact
    key that selects a calendar day, `strftime("%Y-%m-%d")` the date shown in
    the message; these are the basic and extended complete calendar-date
    representations of ISO 8601:2004, section 4.1.2.2.  `strptime` reads the
    key back, and reads the calendar heading in the form `%Y年%m月`.

    `strptime` is modelled as CPython's `_strptime` implements it: every
    directive is a regular expression (`%Y` is four digits, `%m` is
    `1[0-2]|0[1-9]|[1-9]`, `%d` is `3[01]|[12]\d|0[1-9]|[1-9]| [1-9]`),
    alternatives are tried left to right with backtracking, the match must
    start at the beginning and must then reach the end ("unconverted data
    remains" otherwise), and the fields must make a real date. */
module DateFormat {
  import opened Base
  import opened Text
  import opened Calendar

  // ----- fixed-width numerals -----

  /** Two zero-padded digits, as `%m` and `%d` print. */
  function Digits2(n: int): (s: string)
    requires 0 <= n <= 99
    ensures |s| == 2 && AllDigits(s)
  {
    [DigitChar(n / 10), DigitChar(n % 10)]
  }

  /** Four zero-padded digits, as `%Y` prints. */
  function Digits4(n: int): (s: string)
    requires 0 <= n <= 9999
    ensures |s| == 4 && AllDigits(s)
  {
    Digits2(n / 100) + Digits2(n % 100)
  }

  function Value2(s: string): (v: int)
    requires |s| == 2 && AllDigits(s)
    ensures 0 <= v <= 99
  {
    10 * DigitValue(s[0]) + DigitValue(s[1])
  }

  function Value4(s: string): (v: int)
    requires |s| == 4 && AllDigits(s)
    ensures 0 <= v <= 9999
  {
    100 * Value2(s[..2]) + Value2(s[2..])
  }

  lemma Digits2Value(n: int)
    requires 0 <= n <= 99
    ensures Value2(Digits2(n)) == n
  {
  }

  lemma Digits4Value(n: int)
    requires 0 <= n <= 9999
    ensures Value4(Digits4(n)) == n
  {
    var s := Digits4(n);
    assert s[..2] == Digits2(n / 100) && s[2..] == Digits2(n % 100);
    Digits2Value(n / 100);
    Digits2Value(n % 100);
  }

  lemma Value2Digits(s: string)
    requires |s| == 2 && AllDigits(s)
    ensures Digits2(Value2(s)) == s
  {
  }

  lemma Value4Digits(s: string)
    requires |s| == 4 && AllDigits(s)
    ensures Digits4(Value4(s)) == s
  {
    var hi, lo := Value2(s[..2]), Value2(s[2..]);
    DivMod100(hi, lo);
    assert Digits4(Value4(s)) == Digits2(hi) + Digits2(lo);
    Value2Digits(s[..2]);
    Value2Digits(s[2..]);
    assert s == s[..2] + s[2..];
  }

  lemma DivMod100(hi: int, lo: int)
    requires 0 <= hi <= 99 && 0 <= lo <= 99
    ensures (100 * hi + lo) / 100 == hi && (100 * hi + lo) % 100 == lo
  {
  }

  // ----- strftime -----

  /** `strftime("%Y%m%d")`, the key of the calendar-day link. */
  function CompactKey(d: Date): (key: string)
    requires Valid(d)
    ensures |key| == 8 && AllDigits(key)
  {
    Digits4(d.year) + Digits2(d.month) + Digits2(d.day)
  }

  /** `strftime("%Y-%m-%d")`, the date shown in the message. */
  function DashedDate(d: Date): (s: string)
    requires Valid(d)
    ensures |s| == 10 && s[4] == '-' && s[7] == '-'
    ensures AllDigits(s[..4]) && AllDigits(s[5..7]) && AllDigits(s[8..])
  {
    Digits4(d.year) + "-" + Digits2(d.month) + "-" + Digits2(d.day)
  }

  /** The key is 8 digits, and the dashed form is the key with `-` inserted
      after its 4th and 6th characters. */
  lemma DashedIsKeyWithDashes(d: Date)
    requires Valid(d)
    ensures var key := CompactKey(d);
      |key| == 8 && AllDigits(key) &&
      DashedDate(d) == key[..4] + "-" + key[4..6] + "-" + key[6..]
  {
    var key := CompactKey(d);
    assert key[..4] == Digits4(d.year);
    assert key[4..6] == Digits2(d.month);
    assert key[6..] == Digits2(d.day);
  }

  /** Different dates have different keys (the key names one calendar day). */
  lemma CompactKeyInjective(a: Date, b: Date)
    requires Valid(a) && Valid(b) && CompactKey(a) == CompactKey(b)
    ensures a == b
  {
    CompactKeyRoundTrip(a);
    CompactKeyRoundTrip(b);
  }

  // ----- strptime: the directives' alternatives -----

  /** One way a directive's alternative can match: the number read and the
      characters consumed. */
  datatype Piece = Piece(value: int, width: nat)

  predicate IsNonZeroDigit(c: char) {
    '1' <= c <= '9'
  }

  /** The month as `%m` matched it: zero-padded to two digits, or not. */
  function MonthText(m: int, padded: bool): (s: string)
    requires 1 <= m <= 12
  {
    if padded || m >= 10 then Digits2(m) else [DigitChar(m)]
  }

  /** The alternatives of `%m` that match a prefix of `s`, in the order the
      regular expression tries them; each reads a month as written in that
      prefix. */
  function MonthCandidates(s: string): (r: seq<Piece>)
    ensures forall i :: 0 <= i < |r| ==>
      && 1 <= r[i].value <= 12
      && 1 <= r[i].width <= 2
      && r[i].width <= |s|
      && s[..r[i].width] == MonthText(r[i].value, r[i].width == 2)
  {
    var a := if |s| >= 2 && s[0] == '1' && '0' <= s[1] <= '2' then [Piece(10 + DigitValue(s[1]), 2)] else [];
    var b := if |s| >= 2 && s[0] == '0' && IsNonZeroDigit(s[1]) then [Piece(DigitValue(s[1]), 2)] else [];
    var c := if |s| >= 1 && IsNonZeroDigit(s[0]) then [Piece(DigitValue(s[0]), 1)] else [];
    assert a != [] ==> s[..2] == Digits2(a[0].value);
    assert b != [] ==> s[..2] == Digits2(b[0].value);
    assert c != [] ==> s[..1] == [DigitChar(c[0].value)];
    a + b + c
  }

  /** The alternatives of `%d` that match a prefix of `s`, in order. */
  function DayCandidates(s: string): (r: seq<Piece>)
    ensures forall i :: 0 <= i < |r| ==> 1 <= r[i].value <= 31 && 1 <= r[i].width <= 2 && r[i].width <= |s|
  {
    var a := if |s| >= 2 && s[0] == '3' && '0' <= s[1] <= '1' then [Piece(30 + DigitValue(s[1]), 2)] else [];
    var b := if |s| >= 2 && '1' <= s[0] <= '2' && IsDigit(s[1]) then [Piece(10 * DigitValue(s[0]) + DigitValue(s[1]), 2)] else [];
    var c := if |s| >= 2 && s[0] == '0' && IsNonZeroDigit(s[1]) then [Piece(DigitValue(s[1]), 2)] else [];
    var d := if |s| >= 1 && IsNonZeroDigit(s[0]) then [Piece(DigitValue(s[0]), 1)] else [];
    var e := if |s| >= 2 && s[0] == ' ' && IsNonZeroDigit(s[1]) then [Piece(DigitValue(s[1]), 2)] else [];
    a + b + c + d + e
  }

  /** `datetime(year, month, day)`: ValueError unless the fields name a date. */
  function MakeDate(year: int, month: int, day: int): (r: Result<Date>)
    ensures r.Ok? <==> Valid(Date(year, month, day))
    ensures r.Ok? ==> r.value == Date(year, month, day)
    ensures r.Err? ==> r.error == ValueError
  {
    if Valid(Date(year, month, day)) then Ok(Date(year, month, day)) else Err(ValueError)
  }

  // ----- strptime(text, "%Y%m%d") -----

  /** `%m%d` at the start of `s`: the first month alternative after which some
      day alternative matches, with that day's first alternative. */
  function MatchMonthDay(s: string, months: seq<Piece>): (r: Option<(Piece, Piece)>)
    requires forall i :: 0 <= i < |months| ==> months[i].width <= |s|
    ensures r.Some? ==> r.value.0 in months && r.value.0.width + r.value.1.width <= |s|
  {
    if months == [] then None
    else
      var days := DayCandidates(s[months[0].width..]);
      if days != [] then Some((months[0], days[0]))
      else MatchMonthDay(s, months[1..])
  }

  /** `datetime.strptime(text, "%Y%m%d")`. */
  function ParseCompactKey(text: string): (r: Result<Date>)
    ensures r.Ok? ==> Valid(r.value)
    ensures r.Err? ==> r.error == ValueError
  {
    if |text| < 4 || !AllDigits(text[..4]) then Err(ValueError)
    else
      var rest := text[4..];
      match MatchMonthDay(rest, MonthCandidates(rest))
      case None => Err(ValueError)
      case Some((m, d)) =>
        if m.width + d.width != |rest| then Err(ValueError)  // unconverted data remains
        else MakeDate(Value4(text[..4]), m.value, d.value)
  }

  lemma FirstDayCandidate(d: int)
    requires 1 <= d <= 31
    ensures DayCandidates(Digits2(d)) != [] && DayCandidates(Digits2(d))[0] == Piece(d, 2)
  {
  }

  /** The key reads back as the date it was made from. */
  lemma CompactKeyRoundTrip(d: Date)
    requires Valid(d)
    ensures ParseCompactKey(CompactKey(d)) == Ok(d)
  {
    var key := CompactKey(d);
    var rest := key[4..];
    assert key[..4] == Digits4(d.year);
    Digits4Value(d.year);
    assert rest == Digits2(d.month) + Digits2(d.day);
    assert rest[2..] == Digits2(d.day);
    FirstDayCandidate(d.day);
    var months := MonthCandidates(rest);
    assert months != [] && months[0] == Piece(d.month, 2);
    assert MatchMonthDay(rest, months) == Some((Piece(d.month, 2), Piece(d.day, 2)));
  }

  /** The key reformatted by `run`, `strptime(key, "%Y%m%d").strftime("%Y-%m-%d")`. */
  function ReformatKey(key: string): (r: Result<string>)
    ensures r.Err? ==> r.error == ValueError
    ensures r.Ok? ==> |r.value| == 10 && r.value[4] == '-' && r.value[7] == '-'
  {
    match ParseCompactKey(key)
    case Ok(d) => Ok(DashedDate(d))
    case Err(e) => Err(e)
  }

  /** Reformatting a key made from a date gives that date's dashed form. */
  lemma ReformatCompactKey(d: Date)
    requires Valid(d)
    ensures ReformatKey(CompactKey(d)) == Ok(DashedDate(d))
  {
    CompactKeyRoundTrip(d);
  }

  /** The greedy, left-to-right choice of alternatives: seven digits can
      still read as a date, the month taking two of them when it can. */
  lemma SevenDigitKeyNovember()
    ensures ParseCompactKey("2026111") == Ok(Date(2026, 11, 1))
  {
    assert "2026111"[..4] == "2026" && "2026111"[4..] == "111";
  }

  /** "2026101" is read as October 1st: a two-digit month 10 is tried
      first and leaves the single digit 1 for the day. */
  lemma SevenDigitKeyOctober()
    ensures ParseCompactKey("2026101") == Ok(Date(2026, 10, 1))
  {
    assert "2026101"[..4] == "2026" && "2026101"[4..] == "101";
  }

  /** A day the month does not have is a ValueError. */
  lemma ImpossibleDayKey()
    ensures ParseCompactKey("20260230") == Err(ValueError)
  {
    assert "20260230"[..4] == "2026" && "20260230"[4..] == "0230";
  }

  // ----- strptime(title.strip(), "%Y年%m月") -----

  /** A calendar heading for `(y, m)`, with the month padded or not. */
  function TitleText(y: int, m: int, padded: bool): string
    requires 1 <= y <= 9999 && 1 <= m <= 12
  {
    Digits4(y) + "年" + MonthText(m, padded) + "月"
  }

  /** `%m月` at the start of `s`: the first month alternative followed by `月`. */
  function MatchMonthBeforeSuffix(s: string, months: seq<Piece>): (r: Option<Piece>)
    requires forall i :: 0 <= i < |months| ==> months[i].width <= |s|
    ensures r.Some? ==> r.value in months && r.value.width < |s| && s[r.value.width] == '月'
  {
    if months == [] then None
    else if months[0].width < |s| && s[months[0].width] == '月' then Some(months[0])
    else MatchMonthBeforeSuffix(s, months[1..])
  }

  /** `datetime.strptime(title.strip(), "%Y年%m月")`, read as (year, month). */
  function ParseCalendarTitle(title: string): (r: Result<(int, int)>)
    ensures r.Err? ==> r.error == ValueError
  {
    ParseStrippedTitle(Strip(title))
  }

  /** `strptime(s, "%Y年%m月")` on the already stripped heading. */
  function ParseStrippedTitle(s: string): (r: Result<(int, int)>)
    ensures r.Err? ==> r.error == ValueError
  {
    if |s| < 5 || !AllDigits(s[..4]) || s[4] != '年' then Err(ValueError)
    else
      var rest := s[5..];
      match MatchMonthBeforeSuffix(rest, MonthCandidates(rest))
      case None => Err(ValueError)
      case Some(m) =>
        if m.width + 1 != |rest| then Err(ValueError)  // unconverted data remains
        else
          match MakeDate(Value4(s[..4]), m.value, 1)
          case Ok(d) => Ok((d.year, d.month))
          case Err(e) => Err(e)
  }

  /** Whatever the heading parses to is a real (year, month), and the
      stripped heading is exactly its text, padded or not. */
  lemma ParseCalendarTitleSound(title: string)
    requires ParseCalendarTitle(title).Ok?
    ensures var (y, m) := ParseCalendarTitle(title).value;
      && 1 <= y <= 9999 && 1 <= m <= 12
      && (Strip(title) == TitleText(y, m, false) || Strip(title) == TitleText(y, m, true))
  {
    StrippedTitleSound(Strip(title));
  }

  lemma StrippedTitleSound(s: string)
    requires ParseStrippedTitle(s).Ok?
    ensures var (y, m) := ParseStrippedTitle(s).value;
      && 1 <= y <= 9999 && 1 <= m <= 12
      && (s == TitleText(y, m, false) || s == TitleText(y, m, true))
  {
    var rest := s[5..];
    var p := MatchMonthBeforeSuffix(rest, MonthCandidates(rest)).value;
    var y := Value4(s[..4]);
    assert ParseStrippedTitle(s) == Ok((y, p.value));
    Value4Digits(s[..4]);
    assert rest[..p.width] == MonthText(p.value, p.width == 2);
    assert rest == rest[..p.width] + "月";
    assert s == s[..4] + "年" + rest;
  }

  lemma MonthTitleMatch(m: int, padded: bool)
    requires 1 <= m <= 12
    ensures var rest := MonthText(m, padded) + "月";
      MatchMonthBeforeSuffix(rest, MonthCandidates(rest)) == Some(Piece(m, |MonthText(m, padded)|))
  {
    var rest := MonthText(m, padded) + "月";
    var months := MonthCandidates(rest);
    assert months != [] && months[0] == Piece(m, |MonthText(m, padded)|);
  }

  /** A heading for a real (year, month) parses back to it. */
  lemma TitleTextParses(y: int, m: int, padded: bool)
    requires 1 <= y <= 9999 && 1 <= m <= 12
    ensures ParseStrippedTitle(TitleText(y, m, padded)) == Ok((y, m))
  {
    var t := TitleText(y, m, padded);
    assert t[..4] == Digits4(y);
    Digits4Value(y);
    assert t[4] == '年';
    assert t[5..] == MonthText(m, padded) + "月";
    MonthTitleMatch(m, padded);
  }

  /** Every heading for a real (year, month), padded or not and with any
      whitespace around it, parses back to that (year, month). */
  lemma TitleRoundTrip(pre: string, y: int, m: int, padded: bool, post: string)
    requires AllSpace(pre) && AllSpace(post) && 1 <= y <= 9999 && 1 <= m <= 12
    ensures ParseCalendarTitle(pre + TitleText(y, m, padded) + post) == Ok((y, m))
  {
    var t := TitleText(y, m, padded);
    assert t[..4] == Digits4(y);
    DigitIsNotSpace(t[0]);
    StripPadded(pre, t, post);
    TitleTextParses(y, m, padded);
  }

  /** The heading without any whitespace around it parses back too. */
  lemma BareTitleParses(y: int, m: int, padded: bool)
    requires 1 <= y <= 9999 && 1 <= m <= 12
    ensures ParseCalendarTitle(TitleText(y, m, padded)) == Ok((y, m))
  {
    var t := TitleText(y, m, padded);
    assert t[..4] == Digits4(y);
    DigitIsNotSpace(t[0]);
    StripTrimmed(t);
    TitleTextParses(y, m, padded);
  }

  /** Headings that do not fit the format are a ValueError: a month past 12
      (the regular expression reads `1` and then finds `3`, not `月`). */
  lemma TitleRejectsMonth13()
    ensures ParseCalendarTitle("2026年13月") == Err(ValueError)
  {
    StripTrimmed("2026年13月");
    assert "2026年13月"[5..] == "13月";
  }

  /** Month 0 is no alternative of `%m`. */
  lemma TitleRejectsMonth0()
    ensures ParseCalendarTitle("2026年0月") == Err(ValueError)
  {
    StripTrimmed("2026年0月");
    assert "2026年0月"[5..] == "0月";
  }

  /** Year 0 matches the pattern but `datetime` refuses it. */
  lemma TitleRejectsYear0()
    ensures ParseCalendarTitle("0000年1月") == Err(ValueError)
  {
    StripTrimmed("0000年1月");
    assert "0000年1月"[5..] == "1月";
  }

  /** Text after `月` is unconverted data. */
  lemma TitleRejectsTrailingText()
    ensures ParseCalendarTitle("2026年10月1日") == Err(ValueError)
  {
    StripTrimmed("2026年10月1日");
    assert "2026年10月1日"[5..] == "10月1日";
    MonthTenBeforeDay();
  }

  /** In `10月1日` the month reads as 10, leaving `1日` unconverted. */
  lemma MonthTenBeforeDay()
    ensures MatchMonthBeforeSuffix("10月1日", MonthCandidates("10月1日")) == Some(Piece(10, 2))
  {
    var rest := "10月1日";
    assert MonthCandidates(rest)[0] == Piece(10, 2);
    assert rest[2] == '月';
  }
}
