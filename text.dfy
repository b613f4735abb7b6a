/** Text primitives the scan relies on: Python's notion of whitespace and
    `str.strip()`, substring search (how a row's text is matched), decimal
    numerals as written by `str(int)` and read back by `int(str)`. */
module Text {
  import opened Base

  /** The characters for which Python's `str.isspace()` is true. */
  predicate IsSpace(c: char) {
    || ('\t' <= c <= '\r') || ('\U{1C}' <= c <= '\U{1F}') || c == ' '
    || c == '\U{85}' || c == '\U{A0}' || c == '\U{1680}'
    || ('\U{2000}' <= c <= '\U{200A}') || c == '\U{2028}' || c == '\U{2029}'
    || c == '\U{202F}' || c == '\U{205F}' || c == '\U{3000}'
  }

  /** The characters `int()` skips around a numeral.  CPython first turns
      every non-ASCII whitespace character into a space and then skips the
      C locale's whitespace, so the ASCII separators U+001C..U+001F, which
      `str.isspace()` counts, are not skipped. */
  predicate IsIntSpace(c: char) {
    IsSpace(c) && !('\U{1C}' <= c <= '\U{1F}')
  }

  /** Every character of `s` is one `space` accepts. */
  predicate AllOf(s: string, space: char -> bool) {
    forall i :: 0 <= i < |s| ==> space(s[i])
  }

  predicate AllSpace(s: string) {
    AllOf(s, IsSpace)
  }

  predicate AllIntSpace(s: string) {
    AllOf(s, IsIntSpace)
  }

  /** `s` has no `space` character at either end (or is empty). */
  predicate TrimmedBy(s: string, space: char -> bool) {
    s == [] || (!space(s[0]) && !space(s[|s| - 1]))
  }

  predicate Trimmed(s: string) {
    TrimmedBy(s, IsSpace)
  }

  /** The suffix left after every leading `space` character is dropped. */
  function TrimStart(s: string, space: char -> bool): (r: string)
    ensures |r| <= |s| && r == s[|s| - |r|..]
    ensures AllOf(s[..|s| - |r|], space)
    ensures r == [] || !space(r[0])
  {
    if s != [] && space(s[0]) then
      var r := TrimStart(s[1..], space);
      assert s[1..][|s| - 1 - |r|..] == s[|s| - |r|..];
      assert forall i :: 1 <= i < |s| - |r| ==> s[i] == s[1..][..|s| - 1 - |r|][i - 1];
      r
    else s
  }

  /** The prefix left after every trailing `space` character is dropped. */
  function TrimEnd(s: string, space: char -> bool): (r: string)
    ensures |r| <= |s| && r == s[..|r|]
    ensures AllOf(s[|r|..], space)
    ensures r == [] || !space(r[|r| - 1])
  {
    if s != [] && space(s[|s| - 1]) then
      var r := TrimEnd(s[..|s| - 1], space);
      assert s[..|s| - 1][..|r|] == s[..|r|];
      assert forall i :: |r| <= i < |s| - 1 ==> s[i] == s[..|s| - 1][|r|..][i - |r|];
      r
    else s
  }

  /** `s.strip()`. */
  function Strip(s: string): (r: string)
    ensures Trimmed(r)
  {
    TrimEnd(TrimStart(s, IsSpace), IsSpace)
  }

  /** The whitespace `int()` ignores, taken off both ends. */
  function IntStrip(s: string): (r: string)
    ensures TrimmedBy(r, IsIntSpace)
  {
    TrimEnd(TrimStart(s, IsIntSpace), IsIntSpace)
  }

  lemma {:induction false} TrimStartSkipsSpace(pre: string, s: string, space: char -> bool)
    requires AllOf(pre, space)
    requires s == [] || !space(s[0])
    ensures TrimStart(pre + s, space) == s
  {
    if pre != [] {
      assert (pre + s)[1..] == pre[1..] + s;
      TrimStartSkipsSpace(pre[1..], s, space);
    }
  }

  lemma {:induction false} TrimEndSkipsSpace(s: string, post: string, space: char -> bool)
    requires AllOf(post, space)
    requires s == [] || !space(s[|s| - 1])
    ensures TrimEnd(s + post, space) == s
  {
    if post != [] {
      var p := post[..|post| - 1];
      assert (s + post)[..|s + post| - 1] == s + p;
      TrimEndSkipsSpace(s, p, space);
    } else {
      assert s + post == s;
    }
  }

  /** Trimming padding off a text with no padding character at its ends
      returns that text exactly. */
  lemma TrimPadded(pre: string, s: string, post: string, space: char -> bool)
    requires AllOf(pre, space) && AllOf(post, space) && s != [] && TrimmedBy(s, space)
    ensures TrimEnd(TrimStart(pre + s + post, space), space) == s
  {
    assert pre + s + post == pre + (s + post);
    TrimStartSkipsSpace(pre, s + post, space);
    TrimEndSkipsSpace(s, post, space);
  }

  /** Stripping whitespace padding returns the padded text exactly. */
  lemma StripPadded(pre: string, s: string, post: string)
    requires AllSpace(pre) && AllSpace(post) && s != [] && Trimmed(s)
    ensures Strip(pre + s + post) == s
  {
    TrimPadded(pre, s, post, IsSpace);
  }

  /** The same for the whitespace `int()` ignores. */
  lemma IntStripPadded(pre: string, s: string, post: string)
    requires AllIntSpace(pre) && AllIntSpace(post) && s != [] && TrimmedBy(s, IsIntSpace)
    ensures IntStrip(pre + s + post) == s
  {
    TrimPadded(pre, s, post, IsIntSpace);
  }

  /** `needle` occurs in `s` starting at index `i`. */
  predicate OccursAt(s: string, needle: string, i: int) {
    0 <= i <= |s| - |needle| && s[i..i + |needle|] == needle
  }

  /** Substring test, as `needle in s` (and Playwright's `has_text`). */
  function Contains(s: string, needle: string): (r: bool)
    ensures r <==> exists i :: OccursAt(s, needle, i)
  {
    if needle <= s then
      assert OccursAt(s, needle, 0);
      true
    else if s == [] then
      false
    else
      var r := Contains(s[1..], needle);
      assert r ==> exists i :: OccursAt(s, needle, i) by {
        if r {
          var j :| OccursAt(s[1..], needle, j);
          TailSlice(s, j + 1, |needle|);
          assert OccursAt(s, needle, j + 1);
        }
      }
      assert forall i :: OccursAt(s, needle, i) <==> i >= 1 && OccursAt(s[1..], needle, i - 1) by {
        forall i
          ensures OccursAt(s, needle, i) <==> i >= 1 && OccursAt(s[1..], needle, i - 1)
        {
          if 1 <= i <= |s| - |needle| {
            TailSlice(s, i, |needle|);
          }
        }
      }
      r
  }

  lemma TailSlice(s: string, i: int, n: int)
    requires 1 <= i && 0 <= n && i + n <= |s|
    ensures s[1..][i - 1..i - 1 + n] == s[i..i + n]
  {
  }

  /** A text lacking one of the needle's characters does not contain it. */
  lemma MissingCharNotContained(s: string, needle: string, k: int)
    requires 0 <= k < |needle| && forall i :: 0 <= i < |s| ==> s[i] != needle[k]
    ensures !Contains(s, needle)
  {
  }

  predicate IsDigit(c: char) {
    '0' <= c <= '9'
  }

  function DigitValue(c: char): (v: nat)
    requires IsDigit(c)
    ensures v <= 9
  {
    c as int - '0' as int
  }

  function DigitChar(v: nat): (c: char)
    requires v <= 9
    ensures IsDigit(c) && DigitValue(c) == v
  {
    ('0' as int + v) as char
  }

  predicate AllDigits(s: string) {
    forall i :: 0 <= i < |s| ==> IsDigit(s[i])
  }

  /** The shortest decimal numeral of `n`, as Python's `str(n)` writes it. */
  function NatToString(n: nat): (s: string)
    ensures |s| >= 1 && AllDigits(s)
    ensures |s| > 1 ==> s[0] != '0'
  {
    if n < 10 then [DigitChar(n)] else NatToString(n / 10) + [DigitChar(n % 10)]
  }

  /** `str(n)` for any integer. */
  function IntToString(n: int): string {
    if n < 0 then "-" + NatToString(-n) else NatToString(n)
  }

  /** A body `int()` accepts in base 10: digits, with single underscores
      allowed between two digits. */
  predicate WellFormedNumeral(s: string) {
    && |s| > 0
    && IsDigit(s[0])
    && IsDigit(s[|s| - 1])
    && (forall i :: 0 <= i < |s| ==> IsDigit(s[i]) || s[i] == '_')
    && (forall i :: 0 <= i < |s| - 1 ==> s[i] == '_' ==> s[i + 1] != '_')
  }

  /** The value of a numeral body, underscores being separators only. */
  function NumeralValue(s: string): nat
    requires forall i :: 0 <= i < |s| ==> IsDigit(s[i]) || s[i] == '_'
  {
    if s == [] then 0
    else if s[|s| - 1] == '_' then NumeralValue(s[..|s| - 1])
    else 10 * NumeralValue(s[..|s| - 1]) + DigitValue(s[|s| - 1])
  }

  /** The default of `sys.get_int_max_str_digits()`: `int()` refuses a
      decimal numeral with more digits than this. */
  const MaxStrDigits: nat := 4300

  /** The number of digits in a numeral body, underscores not counted. */
  function DigitCount(s: string): (k: nat)
    ensures k <= |s|
  {
    if s == [] then 0
    else DigitCount(s[..|s| - 1]) + (if IsDigit(s[|s| - 1]) then 1 else 0)
  }

  lemma {:induction false} DigitCountAllDigits(s: string)
    requires AllDigits(s)
    ensures DigitCount(s) == |s|
  {
    if s != [] {
      DigitCountAllDigits(s[..|s| - 1]);
    }
  }

  /** `str(n)` has at most MaxStrDigits digits, so `int()` may read it back. */
  predicate WithinDigitLimit(n: int) {
    |NatToString(if n < 0 then -n else n)| <= MaxStrDigits
  }

  /** Python's `int(text)` in base 10: surrounding whitespace (as IsIntSpace
      defines it) is ignored, an optional sign, then a well-formed numeral of
      at most MaxStrDigits digits; anything else raises ValueError. */
  function ParseInt(text: string): (r: Result<int>)
    ensures r.Err? ==> r.error == ValueError
  {
    ParseSigned(IntStrip(text))
  }

  /** The part of `int()` after whitespace is stripped: an optional sign and a numeral. */
  function ParseSigned(t: string): (r: Result<int>)
    ensures r.Err? ==> r.error == ValueError
    ensures r.Ok? && r.value < 0 ==> |t| > 0 && t[0] == '-'
  {
    var negative := |t| > 0 && t[0] == '-';
    var body := if |t| > 0 && (t[0] == '-' || t[0] == '+') then t[1..] else t;
    if WellFormedNumeral(body) && DigitCount(body) <= MaxStrDigits then
      var magnitude: int := NumeralValue(body);
      Ok(if negative then -magnitude else magnitude)
    else
      Err(ValueError)
  }

  lemma {:induction false} NumeralValueOfString(n: nat)
    ensures NumeralValue(NatToString(n)) == n
  {
    if n >= 10 {
      var s := NatToString(n);
      assert s[..|s| - 1] == NatToString(n / 10);
      NumeralValueOfString(n / 10);
    }
  }

  lemma DigitIsNotSpace(c: char)
    requires IsDigit(c)
    ensures !IsSpace(c) && !IsIntSpace(c)
  {
  }

  /** `str(n)` is a numeral `int()` accepts, with no whitespace around it. */
  lemma NatToStringWellFormed(n: nat)
    ensures WellFormedNumeral(NatToString(n)) && TrimmedBy(NatToString(n), IsIntSpace)
  {
    var s := NatToString(n);
    DigitIsNotSpace(s[0]);
    DigitIsNotSpace(s[|s| - 1]);
  }

  /** `str(n)` within the digit limit is a numeral body `int()` accepts,
      with no sign, that reads as `n`. */
  lemma NatToStringIsBody(n: nat)
    requires |NatToString(n)| <= MaxStrDigits
    ensures var digits := NatToString(n);
      && WellFormedNumeral(digits) && DigitCount(digits) <= MaxStrDigits
      && NumeralValue(digits) == n && digits[0] != '-' && digits[0] != '+'
  {
    NatToStringWellFormed(n);
    NumeralValueOfString(n);
    DigitCountAllDigits(NatToString(n));
  }

  /** A bare numeral, and one with a sign in front, read as their value. */
  lemma ParseSignedNumeral(n: nat)
    requires |NatToString(n)| <= MaxStrDigits
    ensures ParseSigned(NatToString(n)) == Ok(n)
    ensures ParseSigned("+" + NatToString(n)) == Ok(n)
    ensures n > 0 ==> ParseSigned("-" + NatToString(n)) == Ok(-(n as int))
  {
    var digits := NatToString(n);
    NatToStringIsBody(n);
    assert ("+" + digits)[1..] == digits;
    assert ("-" + digits)[1..] == digits;
  }

  /** `int(str(n)) == n` for every integer of at most MaxStrDigits digits. */
  lemma ParseIntRoundTrip(n: int)
    requires WithinDigitLimit(n)
    ensures ParseInt(IntToString(n)) == Ok(n)
  {
    var s := IntToString(n);
    if n < 0 {
      var m: nat := -n;
      assert s == "-" + NatToString(m);
      ParseIntNegative(m);
      assert ParseInt(s) == Ok(-(m as int));
    } else {
      assert s == NatToString(n);
      ParseIntNatural(n);
    }
  }

  lemma ParseIntNatural(n: nat)
    requires |NatToString(n)| <= MaxStrDigits
    ensures ParseInt(NatToString(n)) == Ok(n)
  {
    NatToStringWellFormed(n);
    IntStripTrimmed(NatToString(n));
    ParseSignedNumeral(n);
  }

  lemma ParseIntNegative(m: nat)
    requires m > 0 && |NatToString(m)| <= MaxStrDigits
    ensures ParseInt("-" + NatToString(m)) == Ok(-(m as int))
  {
    var digits := NatToString(m);
    var s := "-" + digits;
    NatToStringWellFormed(m);
    assert s[|s| - 1] == digits[|digits| - 1];
    IntStripTrimmed(s);
    ParseSignedNumeral(m);
  }

  /** A text with no whitespace at its ends is its own `strip()`. */
  lemma StripTrimmed(s: string)
    requires Trimmed(s)
    ensures Strip(s) == s
  {
    if s != [] {
      StripPadded([], s, []);
      assert [] + s + [] == s;
    }
  }

  lemma IntStripTrimmed(s: string)
    requires TrimmedBy(s, IsIntSpace)
    ensures IntStrip(s) == s
  {
    if s != [] {
      IntStripPadded([], s, []);
      assert [] + s + [] == s;
    }
  }

  /** Numerals with surrounding whitespace or a leading `+` read the same. */
  lemma ParseIntPadded(pre: string, n: nat, post: string)
    requires AllIntSpace(pre) && AllIntSpace(post) && |NatToString(n)| <= MaxStrDigits
    ensures ParseInt(pre + NatToString(n) + post) == Ok(n)
    ensures ParseInt(pre + "+" + NatToString(n) + post) == Ok(n)
  {
    PaddedNumeral(pre, n, post);
    PaddedPlusNumeral(pre, n, post);
  }

  lemma PaddedNumeral(pre: string, n: nat, post: string)
    requires AllIntSpace(pre) && AllIntSpace(post) && |NatToString(n)| <= MaxStrDigits
    ensures ParseInt(pre + NatToString(n) + post) == Ok(n)
  {
    NatToStringWellFormed(n);
    ParseSignedNumeral(n);
    PaddedSigned(pre, NatToString(n), post, n);
  }

  lemma PaddedPlusNumeral(pre: string, n: nat, post: string)
    requires AllIntSpace(pre) && AllIntSpace(post) && |NatToString(n)| <= MaxStrDigits
    ensures ParseInt(pre + "+" + NatToString(n) + post) == Ok(n)
  {
    var digits := NatToString(n);
    NatToStringWellFormed(n);
    ParseSignedNumeral(n);
    var plus := "+" + digits;
    assert pre + "+" + digits + post == pre + plus + post;
    assert TrimmedBy(plus, IsIntSpace);
    PaddedSigned(pre, plus, post, n);
  }

  /** The digit limit decides: the numeral of `n` reads back exactly when it
      has at most MaxStrDigits digits, and is a ValueError otherwise. */
  lemma ParseIntDigitLimit(n: nat)
    ensures ParseInt(NatToString(n)).Ok? <==> |NatToString(n)| <= MaxStrDigits
  {
    var digits := NatToString(n);
    NatToStringWellFormed(n);
    IntStripTrimmed(digits);
    assert ParseInt(digits) == ParseSigned(digits);
    UnsignedDigitLimit(n);
  }

  lemma UnsignedDigitLimit(n: nat)
    ensures ParseSigned(NatToString(n)).Ok? <==> |NatToString(n)| <= MaxStrDigits
  {
    var digits := NatToString(n);
    NatToStringWellFormed(n);
    DigitCountAllDigits(digits);
    assert digits[0] != '-' && digits[0] != '+';
  }

  lemma PaddedSigned(pre: string, t: string, post: string, v: int)
    requires AllIntSpace(pre) && AllIntSpace(post) && t != [] && TrimmedBy(t, IsIntSpace)
    requires ParseSigned(t) == Ok(v)
    ensures ParseInt(pre + t + post) == Ok(v)
  {
    IntStripPadded(pre, t, post);
  }

  /** `str.isspace()` counts U+001C as whitespace and `strip()` drops it,
      but `int()` does not skip it. */
  lemma IntKeepsFileSeparator()
    ensures Strip("\U{1C}5") == "5"
    ensures ParseInt("\U{1C}5") == Err(ValueError)
  {
    StripDropsFileSeparator();
    IntReadsFileSeparator();
    FileSeparatorIsNotNumeral();
  }

  lemma StripDropsFileSeparator()
    ensures Strip("\U{1C}5") == "5"
  {
    assert IsSpace('\U{1C}') && !IsSpace('5');
    StripDropsLeadingSpace('\U{1C}', "5");
    assert ['\U{1C}'] + "5" == "\U{1C}5";
  }

  /** One leading whitespace character before trimmed text is stripped. */
  lemma StripDropsLeadingSpace(c: char, s: string)
    requires IsSpace(c) && s != [] && Trimmed(s)
    ensures Strip([c] + s) == s
  {
    StripPadded([c], s, []);
    assert [c] + s + [] == [c] + s;
  }

  lemma FileSeparatorIsNotNumeral()
    ensures ParseSigned("\U{1C}5") == Err(ValueError)
  {
    var t := "\U{1C}5";
    assert t[0] == '\U{1C}' && !IsDigit(t[0]);
    assert !WellFormedNumeral(t);
  }

  lemma IntReadsFileSeparator()
    ensures IntStrip("\U{1C}5") == "\U{1C}5"
  {
    IntStripTrimmed("\U{1C}5");
  }
}
