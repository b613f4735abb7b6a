/** The scan's result table and the message built from it.  The results
    are a Python dict from facility name to availability, which keeps its
    keys in insertion order; it is modelled as a sequence of (name, result)
    pairs.  The message lists every facility in that order when any of
    them is available, and is a two-line notice otherwise. */
module Report {
  import opened Base
  import opened Text
  import opened DateFormat

  /** An insertion-ordered dict from facility name to availability. */
  type Dict = seq<(string, bool)>

  /** `list(d.keys())`. */
  function Keys(d: Dict): (ks: seq<string>)
    ensures |ks| == |d| && forall i :: 0 <= i < |d| ==> ks[i] == d[i].0
  {
    if d == [] then [] else [d[0].0] + Keys(d[1..])
  }

  predicate DistinctKeys(d: Dict) {
    forall i, j :: 0 <= i < j < |d| ==> d[i].0 != d[j].0
  }

  /** Where `k` is stored: the first entry with that key. */
  function KeyIndex(d: Dict, k: string): (r: Option<nat>)
    ensures r.None? <==> k !in Keys(d)
    ensures r.Some? ==> r.value < |d| && d[r.value].0 == k
    ensures r.Some? ==> forall j :: 0 <= j < r.value ==> d[j].0 != k
  {
    if d == [] then None
    else if d[0].0 == k then Some(0)
    else
      var rest := KeyIndex(d[1..], k);
      assert Keys(d) == [d[0].0] + Keys(d[1..]);
      assert forall j :: 1 <= j < |d| ==> d[j] == d[1..][j - 1];
      if rest.Some? then Some(rest.value + 1) else None
  }

  /** `d.get(k)`: the value stored under `k`, if any. */
  function Get(d: Dict, k: string): (r: Option<bool>)
    ensures r.Some? <==> k in Keys(d)
    ensures r.Some? ==> (k, r.value) in d
  {
    match KeyIndex(d, k)
    case Some(i) => Some(d[i].1)
    case None => None
  }

  /** Dicts with the same keys in the same order store each key at the same place. */
  lemma SameKeysSameIndex(d: Dict, e: Dict, k: string)
    requires Keys(d) == Keys(e)
    ensures KeyIndex(d, k) == KeyIndex(e, k)
  {
    var i, j := KeyIndex(d, k), KeyIndex(e, k);
    assert forall n :: 0 <= n < |d| ==> d[n].0 == e[n].0 by {
      forall n | 0 <= n < |d| ensures d[n].0 == e[n].0 {
        assert Keys(d)[n] == Keys(e)[n];
      }
    }
    if i.Some? && j.Some? {
      assert !(i.value < j.value) && !(j.value < i.value);
    }
  }

  /** Appending a new key leaves the place of every other key alone. */
  lemma AppendKeepsIndex(d: Dict, k: string, v: bool, other: string)
    requires k !in Keys(d) && other != k
    ensures KeyIndex(d + [(k, v)], other) == KeyIndex(d, other)
  {
    var e := d + [(k, v)];
    var i, j := KeyIndex(d, other), KeyIndex(e, other);
    assert Keys(e)[|d|] == k;
    assert forall n :: 0 <= n < |d| ==> e[n] == d[n];
    if i.Some? {
      assert j.Some?;
      assert !(i.value < j.value) && !(j.value < i.value);
    }
  }

  /** `d[k] = v`: an existing key keeps its place and takes the new value;
      a new key goes at the end. */
  function Put(d: Dict, k: string, v: bool): (r: Dict)
    ensures Keys(r) == if k in Keys(d) then Keys(d) else Keys(d) + [k]
    ensures k !in Keys(d) ==> r == d + [(k, v)]
    ensures Get(r, k) == Some(v)
  {
    match KeyIndex(d, k)
    case Some(i) =>
      var r := d[i := (k, v)];
      assert Keys(r) == Keys(d);
      SameKeysSameIndex(d, r, k);
      r
    case None =>
      var r := d + [(k, v)];
      assert Keys(r) == Keys(d) + [k];
      assert KeyIndex(r, k) == Some(|d|) by {
        assert forall j :: 0 <= j < |d| ==> r[j].0 == Keys(d)[j];
      }
      r
  }

  /** Assigning to `k` leaves every other key's value as it was. */
  lemma PutKeepsOthers(d: Dict, k: string, v: bool, other: string)
    requires other != k
    ensures Get(Put(d, k, v), other) == Get(d, other)
  {
    var r := Put(d, k, v);
    match KeyIndex(d, k)
    case Some(i) =>
      SameKeysSameIndex(d, r, other);
    case None =>
      AppendKeepsIndex(d, k, v, other);
  }

  /** Assignment keeps the keys distinct. */
  lemma PutKeepsDistinct(d: Dict, k: string, v: bool)
    requires DistinctKeys(d)
    ensures DistinctKeys(Put(d, k, v))
  {
    var r := Put(d, k, v);
    assert forall i :: 0 <= i < |r| ==> r[i].0 == Keys(r)[i];
    assert forall i :: 0 <= i < |d| ==> d[i].0 == Keys(d)[i];
  }

  /** In a dict whose keys are distinct the value under a key is the one
      stored with it. */
  lemma GetDistinct(d: Dict, i: int)
    requires 0 <= i < |d| && DistinctKeys(d)
    ensures Get(d, d[i].0) == Some(d[i].1)
  {
    assert Keys(d)[i] == d[i].0;
    var j := KeyIndex(d, d[i].0).value;
    assert !(i < j) && !(j < i);
  }

  /** `any(d.values())`. */
  function AnyAvailable(d: Dict): (r: bool)
    ensures r <==> exists i :: 0 <= i < |d| && d[i].1
  {
    if d == [] then false
    else
      assert forall i :: 1 <= i < |d| ==> d[i] == d[1..][i - 1];
      d[0].1 || AnyAvailable(d[1..])
  }

  const AvailableMark: char := '\U{2705}'
  const UnavailableMark: char := '\U{274C}'
  const ClockMark: char := '\U{1F552}'
  // The two long texts are spelled in short pieces, which keeps facts
  // about their characters cheap to prove.
  const HeaderPrefix: string :=
    "\U{2705}\U{2705}\U{2705}" + "\U{1F3C3}\U{200D}\U{2642}\U{FE0F} " + "Sports " + "Facilities " + "Available for "
  const CheckedAtPrefix: string := "\U{1F552} Checked at: "
  const AvailableSuffix: string := ": Available\n"
  const UnavailableSuffix: string := ": Not available\n"
  const NoSlotsNotice: string :=
    "\U{274C} No " + "available " + "slots " + "found for " + "any sports " + "facilities."

  /** The long message's first line. */
  function Header(date: string): string {
    HeaderPrefix + date + ":\n"
  }

  /** The long message's time line and the blank line after it. */
  function TimeLines(executionTime: string): string {
    CheckedAtPrefix + executionTime + "\n\n"
  }

  /** One facility's line of the long message. */
  function FacilityLine(name: string, open: bool): (line: string)
    ensures |line| > |name| + 2 && line[1] == ' ' && line[|line| - 1] == '\n'
    ensures line[0] == AvailableMark <==> open
    ensures line[0] == UnavailableMark <==> !open
  {
    if open then [AvailableMark, ' '] + name + AvailableSuffix
    else [UnavailableMark, ' '] + name + UnavailableSuffix
  }

  /** The facility lines, in the dict's order. */
  function FacilityLines(d: Dict): (lines: string)
    ensures lines == [] <==> d == []
    ensures lines != [] ==> lines[|lines| - 1] == '\n'
  {
    if d == [] then [] else FacilityLines(d[..|d| - 1]) + FacilityLine(d[|d| - 1].0, d[|d| - 1].1)
  }

  /** The message when some facility is available. */
  function AvailableMessage(date: string, executionTime: string, d: Dict): (msg: string)
    ensures |msg| > |HeaderPrefix| && msg[..|HeaderPrefix|] == HeaderPrefix && msg[0] == AvailableMark
  {
    Header(date) + TimeLines(executionTime) + FacilityLines(d)
  }

  /** The message when none is. */
  function NoneMessage(executionTime: string): (msg: string)
    ensures |msg| > |CheckedAtPrefix| && msg[..|CheckedAtPrefix|] == CheckedAtPrefix && msg[0] == ClockMark
  {
    CheckedAtPrefix + executionTime + "\n" + NoSlotsNotice
  }

  /** The message `run` builds from the compact target-day key, the
      execution time and the results: the key is re-read with
      `strptime("%Y%m%d")` and shown as `%Y-%m-%d` only in the long form. */
  function Message(key: string, executionTime: string, d: Dict): (r: Result<string>)
    ensures r.Err? ==> r.error == ValueError && AnyAvailable(d)
    ensures r.Ok? ==> |r.value| > 0 && (r.value[0] == AvailableMark <==> AnyAvailable(d))
  {
    if AnyAvailable(d) then
      var date :- ReformatKey(key);
      Ok(AvailableMessage(date, executionTime, d))
    else
      Ok(NoneMessage(executionTime))
  }

  /** The message as `run` assembles it, piece by piece with `+=`. */
  method RenderMessage(key: string, executionTime: string, data: Dict) returns (msg: Result<string>)
    ensures msg == Message(key, executionTime, data)
  {
    if AnyAvailable(data) {
      var date := ReformatKey(key);
      if date.Err? {
        return Err(date.error);
      }
      var m := HeaderPrefix + date.value + ":\n";
      m := m + (CheckedAtPrefix + executionTime + "\n\n");
      m := AppendFacilityLines(m, data);
      msg := Ok(m);
    } else {
      var m := CheckedAtPrefix + executionTime + "\n";
      m := m + NoSlotsNotice;
      msg := Ok(m);
    }
  }

  /** The loop over `data.items()` appending one line per facility. */
  method AppendFacilityLines(head: string, data: Dict) returns (m: string)
    ensures m == head + FacilityLines(data)
  {
    m := head;
    var i := 0;
    while i < |data|
      invariant 0 <= i <= |data|
      invariant m == head + FacilityLines(data[..i])
    {
      var (name, open) := data[i];
      var line;
      if open {
        line := [AvailableMark, ' '] + name + AvailableSuffix;
      } else {
        line := [UnavailableMark, ' '] + name + UnavailableSuffix;
      }
      LinesStep(data, i);
      AppendAssoc(head, FacilityLines(data[..i]), line);
      m := m + line;
      i := i + 1;
    }
    assert data[..|data|] == data;
  }

  lemma AppendAssoc(a: string, b: string, c: string)
    ensures a + b + c == a + (b + c)
  {
  }

  lemma LinesStep(d: Dict, i: int)
    requires 0 <= i < |d|
    ensures FacilityLines(d[..i + 1]) == FacilityLines(d[..i]) + FacilityLine(d[i].0, d[i].1)
  {
    assert d[..i + 1][..i] == d[..i];
  }

  /** Reading a facility line back: the mark gives the result, and what
      lies between the mark and the suffix is the name. */
  function DecodeLine(line: string): Option<(string, bool)> {
    var n := |line|;
    if n >= 2 + |AvailableSuffix| && line[..2] == [AvailableMark, ' '] && line[n - |AvailableSuffix|..] == AvailableSuffix then
      Some((line[2..n - |AvailableSuffix|], true))
    else if n >= 2 + |UnavailableSuffix| && line[..2] == [UnavailableMark, ' '] && line[n - |UnavailableSuffix|..] == UnavailableSuffix then
      Some((line[2..n - |UnavailableSuffix|], false))
    else
      None
  }

  /** Each line names its facility and tells its result unambiguously. */
  lemma FacilityLineRoundTrip(name: string, open: bool)
    ensures DecodeLine(FacilityLine(name, open)) == Some((name, open))
  {
    var line := FacilityLine(name, open);
    var suffix := if open then AvailableSuffix else UnavailableSuffix;
    assert line[..2] == [line[0], ' '];
    assert line[2..|line| - |suffix|] == name;
    assert line[|line| - |suffix|..] == suffix;
  }

  /** The lines of two dicts written one after the other. */
  lemma {:induction false} FacilityLinesAppend(a: Dict, b: Dict)
    ensures FacilityLines(a + b) == FacilityLines(a) + FacilityLines(b)
  {
    if b == [] {
      assert a + b == a;
    } else {
      var c := b[..|b| - 1];
      var last := FacilityLine(b[|b| - 1].0, b[|b| - 1].1);
      assert (a + b)[..|a + b| - 1] == a + c;
      assert (a + b)[|a + b| - 1] == b[|b| - 1];
      FacilityLinesAppend(a, c);
      assert FacilityLines(a + b) == FacilityLines(a + c) + last;
      assert FacilityLines(b) == FacilityLines(c) + last;
      AppendAssoc(FacilityLines(a), FacilityLines(c), last);
    }
  }

  /** Every entry's line is in the long message, after the lines of the
      entries inserted before it and before those inserted after it. */
  lemma FacilityLineInMessage(date: string, executionTime: string, d: Dict, i: int)
    requires 0 <= i < |d|
    ensures AvailableMessage(date, executionTime, d)
         == Header(date) + TimeLines(executionTime)
          + FacilityLines(d[..i]) + FacilityLine(d[i].0, d[i].1) + FacilityLines(d[i + 1..])
  {
    var before, line, after := FacilityLines(d[..i]), FacilityLine(d[i].0, d[i].1), FacilityLines(d[i + 1..]);
    assert d == d[..i + 1] + d[i + 1..];
    FacilityLinesAppend(d[..i + 1], d[i + 1..]);
    LinesStep(d, i);
    assert FacilityLines(d) == before + line + after;
    var ht := Header(date) + TimeLines(executionTime);
    AppendAssoc(ht, before + line, after);
    AppendAssoc(ht, before, line);
  }

  /** The number of occurrences of `c` in `s`. */
  function Count(s: string, c: char): nat {
    if s == [] then 0 else Count(s[..|s| - 1], c) + (if s[|s| - 1] == c then 1 else 0)
  }

  lemma {:induction false} CountAppend(a: string, b: string, c: char)
    ensures Count(a + b, c) == Count(a, c) + Count(b, c)
  {
    if b == [] {
      assert a + b == a;
    } else {
      assert (a + b)[..|a + b| - 1] == a + b[..|b| - 1];
      CountAppend(a, b[..|b| - 1], c);
    }
  }

  lemma {:induction false} CountAbsent(s: string, c: char)
    requires c !in s
    ensures Count(s, c) == 0
  {
    if s != [] {
      assert s[..|s| - 1] <= s;
      CountAbsent(s[..|s| - 1], c);
    }
  }

  lemma HeaderPrefixHasNoNewline()
    ensures '\n' !in HeaderPrefix
  {
  }

  lemma CheckedAtPrefixHasNoNewline()
    ensures '\n' !in CheckedAtPrefix
  {
  }

  lemma NoSlotsNoticeHasNoNewline()
    ensures '\n' !in NoSlotsNotice
  {
  }

  /** A text that ends in its only newline. */
  lemma OneNewlineAtEnd(s: string)
    requires '\n' !in s
    ensures Count(s + "\n", '\n') == 1
  {
    CountAppend(s, "\n", '\n');
    CountAbsent(s, '\n');
  }

  lemma FacilityLineNewlines(name: string, open: bool)
    requires '\n' !in name
    ensures Count(FacilityLine(name, open), '\n') == 1
  {
    var suffix := if open then AvailableSuffix else UnavailableSuffix;
    var mark := if open then AvailableMark else UnavailableMark;
    var body := suffix[..|suffix| - 1];
    assert suffix == body + "\n";
    assert '\n' !in body;
    assert '\n' !in [mark, ' '] + name;
    CountAppend([mark, ' '] + name, suffix, '\n');
    CountAbsent([mark, ' '] + name, '\n');
    OneNewlineAtEnd(body);
  }

  lemma {:induction false} FacilityLinesNewlines(d: Dict)
    requires forall i :: 0 <= i < |d| ==> '\n' !in d[i].0
    ensures Count(FacilityLines(d), '\n') == |d|
  {
    if d != [] {
      var front := d[..|d| - 1];
      FacilityLinesNewlines(front);
      FacilityLineNewlines(d[|d| - 1].0, d[|d| - 1].1);
      CountAppend(FacilityLines(front), FacilityLine(d[|d| - 1].0, d[|d| - 1].1), '\n');
    }
  }

  /** The long message is a header line, a time line, a blank line and one
      line per facility; the short one is two lines.  (Counted as newline
      characters, for inputs without any.) */
  lemma MessageLineCounts(date: string, executionTime: string, d: Dict)
    requires '\n' !in date && '\n' !in executionTime
    requires forall i :: 0 <= i < |d| ==> '\n' !in d[i].0
    ensures Count(AvailableMessage(date, executionTime, d), '\n') == 3 + |d|
    ensures Count(NoneMessage(executionTime), '\n') == 1
  {
    HeaderPrefixHasNoNewline();
    CheckedAtPrefixHasNoNewline();
    NoSlotsNoticeHasNoNewline();
    var header := Header(date);
    var time := TimeLines(executionTime);
    var pre := HeaderPrefix + date + ":";
    assert header == pre + "\n";
    assert '\n' !in pre;
    OneNewlineAtEnd(pre);
    var clock := CheckedAtPrefix + executionTime;
    assert '\n' !in clock;
    assert time == (clock + "\n") + "\n";
    CountAppend(clock + "\n", "\n", '\n');
    OneNewlineAtEnd(clock);
    assert Count("\n", '\n') == 1;
    CountAppend(header + time, FacilityLines(d), '\n');
    CountAppend(header, time, '\n');
    FacilityLinesNewlines(d);
    CountAppend(clock + "\n", NoSlotsNotice, '\n');
    CountAbsent(NoSlotsNotice, '\n');
  }

  /** The message fails exactly when some facility is available and the
      key cannot be re-read. */
  lemma MessageSpec(key: string, executionTime: string, d: Dict)
    ensures Message(key, executionTime, d).Err? <==> AnyAvailable(d) && ReformatKey(key).Err?
  {
  }

  /** With nothing available the message depends on the execution time
      alone: neither the key nor the names appear in it. */
  lemma NoneMessageIgnoresKeyAndData(key1: string, key2: string, executionTime: string, d1: Dict, d2: Dict)
    requires !AnyAvailable(d1) && !AnyAvailable(d2)
    ensures Message(key1, executionTime, d1) == Message(key2, executionTime, d2) == Ok(NoneMessage(executionTime))
  {
  }

  /** A key written from a valid date always re-reads, so the long message
      shows that date with dashes. */
  lemma MessageOfValidKey(t: Calendar.Date, executionTime: string, d: Dict)
    requires Calendar.Valid(t) && AnyAvailable(d)
    ensures Message(CompactKey(t), executionTime, d) == Ok(AvailableMessage(DashedDate(t), executionTime, d))
  {
    ReformatCompactKey(t);
  }
}
