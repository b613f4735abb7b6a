# Kawaguchi sports-facility availability scan, modelled in Dafny

`main.py` is a bot that checks the Kawaguchi city reservation site for a
free gymnasium slot. It runs the steps below and builds one message, which
it prints and, when a Slack webhook URL is configured, posts to Slack. This
project models the logic of those steps and the message they build, and
proves properties of it:

1. **Primary check.** `check_for_taikukan`, for 芝スポーツセンター:
   - reads a weekday token (`sat`, `sun`, `wed`, or anything `int()`
     accepts);
   - resolves the next date with that weekday strictly after today
     (a week ahead when today already has it);
   - reads the date picker's `YYYY年M月` heading with `strptime`;
   - presses "next month" once when the heading is not the target's month;
   - reads the first table row mentioning 体育館, which counts as available
     when it holds an image with alt text 予約可能.
2. **Secondary checks.** `check_for_second_taikukan`, for six more
   facilities. Each reads the last row mentioning 体育館 or アリーナ in the
   same way.
3. **Result dict.** An insertion-ordered facility-to-boolean dict.
4. **Message.**
   - If any facility is available, the message is a header with the target
     date re-read from its `%Y%m%d` key and written as `%Y-%m-%d`,
     followed by one line per facility.
   - Otherwise it is a short "no slots" notice.

Files and modules:

| file | module | contents |
|---|---|---|
| `base.dfy` | `Base` | `Option`, `Result`, and the two exceptions the modelled steps raise: `ValueError` and `OverflowError` |
| `text.dfy` | `Text` | `str.isspace` / `str.strip`, the whitespace `int()` skips, substring search, `str(int)` and the base-10 `int()` |
| `calendar.dfy` | `Calendar` | Python's proleptic Gregorian `date`: `toordinal`, `weekday`, `date + timedelta(days=n)` with its OverflowError past 9999-12-31 |
| `target_date.dfy` | `TargetDate` | the weekday token and the target-date resolution |
| `date_format.dfy` | `DateFormat` | `strftime("%Y%m%d")`, `strftime("%Y-%m-%d")` and `strptime` with `%Y%m%d` and `%Y年%m月`, following CPython's `_strptime` patterns |
| `navigator.dfy` | `Navigator` | the next-month decision and the `CalendarWidget` class whose month a press moves on |
| `availability.dfy` | `Availability` | rows, first/last matching row, the 予約可能 images |
| `report.dfy` | `Report` | the ordered dict, the message text, `RenderMessage` and the `+=` loop |
| `scan.dfy` | `Scan` | `CheckPrimary`, the facility loop `BuildScanResult`, and `Run` |

Where something from outside is needed, it enters as a parameter:

| parameter | what it replaces |
|---|---|
| `today` | `datetime.today()` |
| executionTime string | the already formatted `datetime.now()` timestamp |
| picker heading text | the text of `#hdYM` |
| rows of a page | the content of each page |

Behaviours of the code that are easy to miss:

- The weekday token is parsed with `int()`, which accepts any integer, and
  the model does too. For an index outside 0..6 the offset
  `(index - weekday) % 7` can be 0, so index 7 on a Monday resolves to
  today itself (`SevenOnMondayIsToday`).
- The resolution can raise:
  - `int()` raises ValueError on a bad token;
  - `date + timedelta` raises OverflowError past 9999-12-31;
  - `strptime` raises ValueError on an unreadable heading.

  The model returns each of these as an `Err`.
- `int()` skips less whitespace than `str.strip()` removes: the separators
  U+001C..U+001F count for `str.isspace()` but not for `int()`
  (`IntKeepsFileSeparator`).
- `int()` refuses a decimal numeral of more than 4300 digits, underscores
  not counted, with ValueError (`ParseIntDigitLimit`).

## Model

| member | source | states |
|---|---|---|
| Text.Strip | main.py:78 | the result has no whitespace (in `str.isspace`'s sense) at either end; TrimStart/TrimEnd drop exactly a whitespace prefix/suffix |
| Text.StripPadded | main.py:78 | stripping whitespace padding from a text with no whitespace at its ends gives back exactly that text |
| Text.Contains | main.py:96 | `has_text` substring test: true exactly when the needle occurs at some index of the text |
| Text.ParseIntRoundTrip | main.py:52 | `int(str(n)) == n` for every integer of at most 4300 digits, negative ones included |
| Text.ParseIntPadded | main.py:52 | `int()` ignores a leading `+` and the whitespace it skips around a numeral of at most 4300 digits: the `str.isspace` characters other than U+001C..U+001F |
| Text.ParseInt | main.py:52 | `int(text)` fails only with ValueError |
| Text.ParseIntDigitLimit | main.py:52 | the numeral of n reads back exactly when it has at most 4300 digits (`sys.get_int_max_str_digits()`'s default); a longer one is a ValueError |
| Text.IntStrip | main.py:52 | what `int()` reads has none of the whitespace it skips at either end |
| Text.IntKeepsFileSeparator | main.py:52 | `str.strip()` removes U+001C from `"\x1c5"`, but `int()` rejects that text with ValueError |
| Calendar.Weekday | main.py:70 | `date.weekday()` is in 0..6 |
| Calendar.WeekdayAnchors | main.py:70 | 0001-01-01 is a Monday (0) and 2026-10-14 a Wednesday (2) |
| Calendar.Ordinal | main.py:70-74 | `date.toordinal()` is at least 1 |
| Calendar.OrdinalIncreasing | main.py:70-74 | a later date has a larger ordinal |
| Calendar.DaysInMonth | main.py:71-74 | every month has 28 to 31 days |
| Calendar.LeapYearRule | main.py:71-74 | 2024 and 2000 are leap years, 2026 and 1900 are not; February has 29 days in 2024 and 28 in 2026 |
| Calendar.OrdinalRange | main.py:71-74 | a calendar date is valid (year ≤ 9999) exactly when its ordinal is at most that of 9999-12-31 |
| Calendar.OrdinalInjective | main.py:71-74 | different dates have different ordinals |
| Calendar.AdvanceOrdinal | main.py:71-74 | stepping the calendar forward n days adds n to the ordinal |
| Calendar.AddDays | main.py:71-74 | `d + timedelta(days=n)` succeeds exactly when the new ordinal is at most that of 9999-12-31, and then is a valid date n ordinals later; otherwise OverflowError |
| Calendar.AddDaysIsFromOrdinal | main.py:71-74 | AddDays returns the one valid date with the shifted ordinal |
| Calendar.WeekdayShift | main.py:70-74 | n days later the weekday is `(weekday + n) % 7` |
| Calendar.AdvanceWithinNextMonth | main.py:80-84 | up to 28 days on, a date is in the same month (day + n) or the next month (day + n − month length) |
| TargetDate.DayOfWeekIndex | main.py:44-52 | the token's index fails only with ValueError, and never for `sat`, `sun` or `wed` |
| TargetDate.DaysUntil | main.py:69-74 | the offset is at most 7, is 7 exactly when today has the target weekday, and lands on a weekday congruent to the target modulo 7 |
| TargetDate.ResolveTarget | main.py:67-74 | the target fails only with OverflowError; otherwise it is a valid date 0..7 days after today |
| TargetDate.DaysUntilSpec | main.py:69-74 | the offset is 1..7, lands on the target weekday, is 7 exactly when today has that weekday, and no smaller positive offset lands on it |
| TargetDate.ResolveTargetSpec | main.py:67-74 | the target is valid, 1..7 days after today, never today, has the target weekday, and is 7 days ahead exactly when today has it; it fails only with OverflowError, exactly when past 9999-12-31 |
| TargetDate.ResolveTargetIsNext | main.py:69-74 | no date strictly between today and the target has the target weekday |
| TargetDate.ResolveOutOfRangeIndex | main.py:51-52 | an index outside 0..6 resolves 0..6 days ahead to weekday `index % 7`, and to today exactly when today has that weekday |
| TargetDate.SevenOnMondayIsToday | main.py:51-74 | the token `"7"` on Monday 2026-10-12 resolves to 2026-10-12 itself |
| TargetDate.NamedTokensAreTheirWeekdays | main.py:44-50 | `sat`, `sun`, `wed` map to the weekdays of a real Saturday, Sunday and Wednesday |
| TargetDate.UnnamedToken | main.py:51-52 | a token that does not start with `s` or `w` is exactly `int(token)` |
| TargetDate.NumericTokens | main.py:51-52 | any other token is `int(token)`: the numeral of n, of at most 4300 digits, maps to n |
| TargetDate.PaddedNumericTokens | main.py:51-52 | a numeral of at most 4300 digits with whitespace `int()` skips around it maps to its value |
| TargetDate.WordTokenIsValueError | main.py:51-52 | a token such as `saturday` raises ValueError |
| TargetDate.MondayToSaturday | main.py:73-74 | from Monday 2026-10-12 the Saturday target is 2026-10-17 |
| TargetDate.SaturdayToNextSaturday | main.py:70-71 | from Saturday 2026-10-17 the target is 2026-10-24, not today |
| TargetDate.AcrossYearEnd | main.py:73-74 | from Monday 2026-12-28 the Saturday target is 2027-01-02 |
| DateFormat.Digits4Value | main.py:91 | the 4-digit zero-padded numeral reads back as its value |
| DateFormat.Value4Digits | main.py:91 | any 4 digits are the padded numeral of the value they read as |
| DateFormat.CompactKey | main.py:91 | the `%Y%m%d` key is 8 digits |
| DateFormat.DashedDate | main.py:200 | the `%Y-%m-%d` text is 10 characters: 4 digits, `-`, 2 digits, `-`, 2 digits |
| DateFormat.ReformatKey | main.py:198-200 | re-reading the key fails only with ValueError; otherwise it gives 10 characters with `-` at positions 4 and 7 |
| DateFormat.DashedIsKeyWithDashes | main.py:198-200 | the `%Y%m%d` key is 8 digits, and the `%Y-%m-%d` form is the key with `-` after its 4th and 6th characters |
| DateFormat.CompactKeyInjective | main.py:91-92 | different dates have different `set_data` keys |
| DateFormat.ParseCompactKey | main.py:198-199 | `strptime(key, "%Y%m%d")` yields only valid dates and fails only with ValueError |
| DateFormat.CompactKeyRoundTrip | main.py:91 | `strptime(strftime(d, "%Y%m%d"), "%Y%m%d") == d` for every valid date (in the model's 4-digit `%Y`; see Left out, DateFormat.CompactKey) |
| DateFormat.ReformatCompactKey | main.py:197-200 | re-reading a key written from a valid date succeeds and gives that date written `%Y-%m-%d` |
| DateFormat.SevenDigitKeyNovember | main.py:198-199 | the regexes' ordered alternatives: the seven-digit key `2026111` reads as 2026-11-01 |
| DateFormat.SevenDigitKeyOctober | main.py:198-199 | the two-digit month is tried first: `2026101` reads as 2026-10-01 |
| DateFormat.ImpossibleDayKey | main.py:198-199 | `20260230` matches the pattern but is a ValueError, as February has no day 30 |
| DateFormat.ParseCalendarTitle | main.py:77-78 | `strptime(title.strip(), "%Y年%m月")` fails only with ValueError |
| DateFormat.ParseCalendarTitleSound | main.py:78 | an accepted heading is, once stripped, the padded or unpadded text of the (year, month) it yields, with year 1..9999 and month 1..12 |
| DateFormat.TitleRoundTrip | main.py:77-78 | the heading of any (year, month), padded or not and with whitespace around it, reads back as that (year, month) |
| DateFormat.BareTitleParses | main.py:77-78 | the heading of any (year, month) without surrounding whitespace reads back as that (year, month) |
| DateFormat.TitleRejectsMonth13 | main.py:78 | `2026年13月` is a ValueError |
| DateFormat.TitleRejectsMonth0 | main.py:78 | `2026年0月` is a ValueError |
| DateFormat.TitleRejectsYear0 | main.py:78 | `0000年1月` matches the pattern but is a ValueError |
| DateFormat.TitleRejectsTrailingText | main.py:78 | text after `月` is a ValueError |
| Navigator.Navigate | main.py:80-88 | fails exactly when the heading does not read, with ValueError; otherwise at most one press, made exactly when the heading's (year, month) is not the target's, and the month on show moves on by one month per press |
| Navigator.CalendarWidget.PressNextMonth | main.py:85-87 | one press shows the next month (December to January of the next year) and counts one press |
| Navigator.CalendarWidget.ShowMonthOf | main.py:76-88 | the picker ends in the month Navigate gives, with that many more presses; an unreadable heading changes nothing |
| Navigator.NavigateReachesTarget | main.py:76-88 | when the heading is the text of the month on show and the target is in that month or the next, the picker ends on the target's month, pressing only when the months differ |
| Navigator.ResolvedTargetIsOnePageAway | main.py:67-88 | for a resolved target and a picker on today's month, one navigation shows the target's month |
| Navigator.ResolvedTargetMonth | main.py:67-84 | a resolved target falls in today's month or the next month |
| Availability.FirstIndex | main.py:96 | `.first`: no index exactly when no row matches; otherwise a matching row with no match before it |
| Availability.LastIndex | main.py:117 | `.last`: no index exactly when no row matches; otherwise a matching row with no match after it |
| Availability.OpenSlots | main.py:99 | the list of 予約可能 images is exactly the positions holding that alt text, in document order |
| Availability.OpenSlotsNonEmpty | main.py:101-104 | the image list is non-empty exactly when some image has alt text 予約可能 |
| Availability.PrimaryAvailable | main.py:95-104 | a true primary check points at a 体育館 row with a 予約可能 image |
| Availability.SecondaryAvailable | main.py:116-128 | a true secondary check points at a 体育館-or-アリーナ row with a 予約可能 image |
| Availability.PrimaryAvailableSpec | main.py:95-104 | the primary check is true exactly when the first 体育館 row has a 予約可能 image |
| Availability.SecondaryAvailableSpec | main.py:116-128 | the secondary check is true exactly when the last 体育館-or-アリーナ row has a 予約可能 image |
| Availability.PrimaryIgnoresLaterRows | main.py:96 | once a 体育館 row exists, rows appended after it do not change the primary check |
| Availability.SecondaryIgnoresEarlierRows | main.py:117 | once a matching row exists, rows placed before it do not change the secondary check |
| Availability.NoMatchingRowIsUnavailable | main.py:116-128 | a page without a matching row reads as not available |
| Availability.ArenaOpenGymnasiumFull | main.py:96-128 | a full 体育館 row then an open アリーナ row: the primary check is false and the secondary true |
| Availability.GymnasiumOpenArenaFull | main.py:96-128 | an open 体育館 row then a full アリーナ row: the primary check is true and the secondary false |
| Report.Keys | main.py:203 | the keys, one per entry, in insertion order |
| Report.KeyIndex | main.py:195 | the position of a key: none exactly when the key is absent, otherwise its first occurrence |
| Report.Get | main.py:203-204 | a value exactly for the keys present, and that value is stored with the key |
| Report.Put | main.py:195 | `d[k] = v`: an existing key keeps its place, a new key is appended at the end; afterwards k maps to v |
| Report.PutKeepsOthers | main.py:195 | assigning k leaves the value of every other key as it was, and absent keys absent |
| Report.PutKeepsDistinct | main.py:195 | assignment never duplicates a key |
| Report.GetDistinct | main.py:203-204 | in a dict without repeated keys, each entry's key looks up that entry's value |
| Report.AnyAvailable | main.py:197 | `any(data.values())` is true exactly when some entry is true |
| Report.FacilityLine | main.py:204-207 | a facility line starts with ✅ exactly when the facility is available and with ❌ exactly when not, then a space; it is longer than the name and those two characters, and ends with a newline |
| Report.FacilityLines | main.py:203-207 | the lines are empty exactly for an empty dict, and otherwise end with a newline |
| Report.AvailableMessage | main.py:201-207 | the long message starts with the ✅ header |
| Report.NoneMessage | main.py:214-216 | the short message starts with the 🕒 checked-at line |
| Report.Message | main.py:197-216 | the message fails only with ValueError, and only when something is available; otherwise it is non-empty and starts with ✅ exactly when some facility is available |
| Report.FacilityLineRoundTrip | main.py:204-207 | each facility line can be read back to its facility name and result |
| Report.FacilityLinesAppend | main.py:203-207 | the lines of two dicts, one after the other, are the lines of their concatenation |
| Report.FacilityLineInMessage | main.py:201-207 | each entry's line sits in the long message after the lines of earlier entries and before those of later ones |
| Report.AppendFacilityLines | main.py:203-207 | the `for key, value in data.items()` loop appends exactly the facility lines, in dict order |
| Report.RenderMessage | main.py:197-216 | the assembled message is the long message when any facility is available (and the key re-reads), otherwise the short one |
| Report.MessageLineCounts | main.py:201-216 | the long message has 3 + (number of facilities) newline characters and the short one 1, for inputs without newlines |
| Report.MessageSpec | main.py:197-216 | the message fails exactly when something is available and the key does not re-read |
| Report.NoneMessageIgnoresKeyAndData | main.py:214-216 | with nothing available, the message depends on the execution time only |
| Report.MessageOfValidKey | main.py:197-202 | with a key written from a valid date, the long message shows that date in `%Y-%m-%d` form |
| Scan.FacilitiesDistinct | main.py:179-191 | the seven facility names are pairwise different |
| Scan.CheckPrimary | main.py:43-104 | returns the primary outcome: token errors first, then overflow, then an unreadable heading, else (availability of the day's rows, the day's key); the picker moves as Navigate says, and on any error it is left unchanged |
| Scan.PrimaryOutcome | main.py:43-104 | the primary check fails only with ValueError or OverflowError, and succeeds only with a readable heading and token; its key is 8 digits |
| Scan.SaturdayCheckSpec | main.py:175-177 | the run's `sat` check fails exactly on overflow (OverflowError) or an unreadable heading (ValueError); otherwise its key reads back as a Saturday 1..7 days after today, and its result is the first 体育館 row's availability |
| Scan.BadTokenFailsFirst | main.py:44-52 | a token `int()` rejects gives ValueError whatever the page shows |
| Scan.ScanStep | main.py:193-195 | each loop assignment appends the next facility's entry |
| Scan.ScanResult | main.py:179-195 | the dict has seven entries, entry j keyed by facility j; entry 0 holds the primary result and entry i + 1 the i-th secondary result |
| Scan.BuildScanResult | main.py:179-195 | the loop builds the dict: the primary result first, then each listed facility with its page's result |
| Scan.ScanResultKeys | main.py:179-195 | the built dict's keys are the seven facilities in check order, none repeated; entry 0 is the primary result and entry i + 1 the i-th page's result |
| Scan.ScanResultAny | main.py:197 | `any(data.values())` holds exactly when the primary check or some secondary check found a slot |
| Scan.ScanResultSpec | main.py:179-197 | the dict's keys are exactly the seven facilities, distinct and in check order; each maps to its own check's result; any value is true exactly when one of the checks was |
| Scan.RunOutcome | main.py:175-216 | a run fails only with ValueError or OverflowError |
| Scan.Run | main.py:175-216 | the run's message is the one RunOutcome defines from the primary check, the dict built from the pages, and the message rules; the picker moves as Navigate says for the Saturday target, and is left unchanged when the primary check fails |
| Scan.RunSpec | main.py:175-216 | a run fails only when the primary check does; otherwise it builds the long message, dated with the coming Saturday as `%Y-%m-%d`, when anything is available, and the short one otherwise |

## Left out

- Playwright is not modelled: the browser, page navigation, waits, the
  category filter and search clicks (main.py:136-173), and the
  `select_option` / change event of the secondary check (108-112). Pages
  enter as their rows, and the picker heading as its text.
- A missing `set_data(...)` link or other missing control is not modelled.
  In the source, Playwright raises a timeout for these; in the model every
  click finds its target.
- The `order` argument (`.nth(1)`) is not modelled. It picks the second
  matching reservation button in the browser; nothing in the model depends
  on it.
- The Slack POST (`send_slack_message`), its `if slack_webhook_url`
  condition, `print`, the `input()` prompt and the `__main__` entry point are
  not modelled: they are I/O. The model ends with the message the run builds.
- Clocks are not modelled. `datetime.today()` is a `Date` parameter, since
  the time of day never affects the result. `datetime.now()` arrives as its
  formatted string.
- The branch at main.py:119-120 is not modelled. A Locator object is always
  truthy, so that branch is never taken. A page without a matching row
  reads as "not available", as the image lookup on an empty locator gives.
- Availability.IsPrimaryRow: Playwright's `has_text` also ignores case and
  collapses whitespace. Neither matters for the needles 体育館 and
  アリーナ, which have no case and no whitespace, so the model is a plain
  substring test.
- Availability.Row: a row's text is taken as given. Nested tables, whose
  inner rows' text is also part of the outer row's text, are not modelled
  separately.
- DateFormat.ParseCompactKey: only ASCII digits are matched. Python's `\d`
  also matches other Unicode decimal digits.
- DateFormat.ParseCalendarTitle: only ASCII digits are matched, as for
  ParseCompactKey.
- Text.ParseInt: only ASCII digits are accepted. Python's `int()` also
  accepts other Unicode decimal digits. The digit limit is the default 4300;
  a limit changed with `sys.set_int_max_str_digits` or
  `PYTHONINTMAXSTRDIGITS`, and Python versions without a limit, are not
  modelled.
- Text.IntToString: `str(n)` is written for every integer; Python's own
  refusal to write more than 4300 digits is not modelled. It is used only to
  state the round trip, which is bounded to 4300 digits.
- DateFormat.CompactKey: years below 1000 are written with 4 digits. On
  some C libraries `%Y` writes them unpadded. The run's dates are current
  dates, so they are never that early.
