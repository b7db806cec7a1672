/** The values of the income-statistics cache and Python's `int(text)`, which
    decides whether an SCB cell is stored as a number or as its raw text
    (pipelines/ingest_all.py, `fetch_all_income_stats`). */
module Income {
  import opened Optional
  import Text

  /** A value in a per-code stats dictionary: an int, or a string such as the year. */
  datatype StatValue = IntStat(n: int) | TextStat(s: string)

  /** The per-code stats: metric name (or "year") to value. */
  type Stats = map<string, StatValue>

  predicate IsDigit(c: char) {
    '0' <= c <= '9'
  }

  function DigitValue(c: char): nat
    requires IsDigit(c)
  {
    c as int - '0' as int
  }

  predicate IsDigitOrUnderscore(c: char) {
    IsDigit(c) || c == '_'
  }

  /** Decimal digits, with single underscores allowed between two digits, as
      `int()` accepts them after the sign. */
  predicate IsDigitGroup(s: string) {
    && s != []
    && IsDigit(s[0])
    && IsDigit(s[|s| - 1])
    && (forall i :: 0 <= i < |s| ==> IsDigitOrUnderscore(s[i]))
    && (forall i :: 0 < i < |s| - 1 && s[i] == '_' ==> IsDigit(s[i - 1]) && IsDigit(s[i + 1]))
  }

  /** The number the digits spell, underscores ignored. */
  function DigitsValue(s: string): nat
    requires forall i :: 0 <= i < |s| ==> IsDigitOrUnderscore(s[i])
  {
    if s == [] then 0
    else
      var last := s[|s| - 1];
      assert IsDigitOrUnderscore(last);
      if last == '_' then DigitsValue(s[..|s| - 1])
      else DigitsValue(s[..|s| - 1]) * 10 + DigitValue(last)
  }

  /** The most digits `int()` reads in base 10 (`sys.int_info.default_max_str_digits`);
      a longer number raises ValueError. */
  const MaxStrDigits: nat := 4300

  /** How many digits a text holds, underscores not counted. */
  function DigitCount(s: string): nat {
    if s == [] then 0
    else DigitCount(s[..|s| - 1]) + (if IsDigit(s[|s| - 1]) then 1 else 0)
  }

  lemma {:induction false} DigitCountAll(s: string)
    requires forall i :: 0 <= i < |s| ==> IsDigit(s[i])
    ensures DigitCount(s) == |s|
  {
    if s != [] {
      DigitCountAll(s[..|s| - 1]);
    }
  }

  /** A digit group of at most MaxStrDigits digits, read as a number; None for
      anything else. */
  function ParseDigits(body: string): Option<nat> {
    if IsDigitGroup(body) && DigitCount(body) <= MaxStrDigits then Some(DigitsValue(body))
    else None
  }

  /** A stripped text: an optional sign followed by a digit group. */
  function ParseSigned(t: string): Option<int> {
    if t != [] && (t[0] == '+' || t[0] == '-') then
      match ParseDigits(t[1..])
      case None => None
      case Some(v) => Some(if t[0] == '-' then -(v as int) else v as int)
    else
      match ParseDigits(t)
      case None => None
      case Some(v) => Some(v)
  }

  /** The whitespace `int()` skips around a number: the ASCII space, tab, line feed,
      vertical tab, form feed and carriage return, and the non-ASCII characters that
      `str.isspace` accepts, which CPython turns into spaces before parsing. The ASCII
      separators U+001C to U+001F, which `strip()` removes, are not skipped. */
  predicate IsIntSpace(c: char) {
    c == ' ' || ('\t' <= c <= '\r') || (c > '\U{7F}' && Text.IsSpace(c))
  }

  predicate AllIntSpace(s: string) {
    forall i :: 0 <= i < |s| ==> IsIntSpace(s[i])
  }

  /** A text with nothing for `int()` to skip at either end. */
  predicate IsIntStripped(s: string) {
    s == [] || (!IsIntSpace(s[0]) && !IsIntSpace(s[|s| - 1]))
  }

  function IntTrimLeft(s: string): (r: string)
    ensures |r| <= |s| && r == s[|s| - |r|..]
    ensures r == [] || !IsIntSpace(r[0])
  {
    if s != [] && IsIntSpace(s[0]) then IntTrimLeft(s[1..]) else s
  }

  function IntTrimRight(s: string): (r: string)
    ensures |r| <= |s| && r == s[..|r|]
    ensures r == [] || !IsIntSpace(r[|r| - 1])
  {
    if s != [] && IsIntSpace(s[|s| - 1]) then IntTrimRight(s[..|s| - 1]) else s
  }

  /** The text `int()` reads once the whitespace it skips is gone from both ends. */
  function IntStrip(s: string): (r: string)
    ensures |r| <= |s|
    ensures IsIntStripped(r)
  {
    IntTrimRight(IntTrimLeft(s))
  }

  lemma {:induction false} IntTrimLeftSpaces(ws: string, s: string)
    requires AllIntSpace(ws)
    ensures IntTrimLeft(ws + s) == IntTrimLeft(s)
  {
    if ws != [] {
      assert (ws + s)[0] == ws[0];
      assert (ws + s)[1..] == ws[1..] + s;
      IntTrimLeftSpaces(ws[1..], s);
    } else {
      assert ws + s == s;
    }
  }

  lemma {:induction false} IntTrimRightSpaces(s: string, ws: string)
    requires AllIntSpace(ws)
    ensures IntTrimRight(s + ws) == IntTrimRight(s)
  {
    if ws != [] {
      assert (s + ws)[|s + ws| - 1] == ws[|ws| - 1];
      assert (s + ws)[..|s + ws| - 1] == s + ws[..|ws| - 1];
      IntTrimRightSpaces(s, ws[..|ws| - 1]);
    } else {
      assert s + ws == s;
    }
  }

  lemma {:induction false} IntTrimLeftAllSpace(s: string)
    requires AllIntSpace(s)
    ensures IntTrimLeft(s) == []
  {
    if s != [] {
      IntTrimLeftAllSpace(s[1..]);
    }
  }

  lemma {:induction false} IntTrimLeftAppend(s: string, t: string)
    requires !AllIntSpace(s)
    ensures IntTrimLeft(s + t) == IntTrimLeft(s) + t
  {
    assert s != [];
    assert (s + t)[0] == s[0];
    if IsIntSpace(s[0]) {
      assert (s + t)[1..] == s[1..] + t;
      IntTrimLeftAppend(s[1..], t);
    }
  }

  /** Whitespace that `int()` skips, around a text, does not change what it reads. */
  lemma IntStripPadded(ws: string, s: string, ws': string)
    requires AllIntSpace(ws) && AllIntSpace(ws')
    ensures IntStrip(ws + s + ws') == IntStrip(s)
  {
    assert ws + s + ws' == ws + (s + ws');
    IntTrimLeftSpaces(ws, s + ws');
    if AllIntSpace(s) {
      assert AllIntSpace(s + ws');
      IntTrimLeftAllSpace(s + ws');
      IntTrimLeftAllSpace(s);
    } else {
      IntTrimLeftAppend(s, ws');
      IntTrimRightSpaces(IntTrimLeft(s), ws');
    }
  }

  lemma IntStripStripped(s: string)
    requires IsIntStripped(s)
    ensures IntStrip(s) == s
  {
    if s != [] {
      assert IntTrimLeft(s) == s;
    }
  }

  /** Python's `int(text)` in base 10: the whitespace it skips is ignored at both
      ends, a sign is optional, and the rest must be a digit group; None where `int`
      raises ValueError. */
  function ParseInt(text: string): Option<int> {
    ParseSigned(IntStrip(text))
  }

  /** How a cell is stored: `int(val)`, or the raw text when that raises. */
  function Convert(text: string): (v: StatValue)
    ensures v.IntStat? <==> ParseInt(text).Some?
    ensures v.IntStat? ==> v.n == ParseInt(text).value
    ensures v.TextStat? ==> v.s == text
  {
    match ParseInt(text)
    case Some(n) => IntStat(n)
    case None => TextStat(text)
  }

  function DigitChar(d: nat): (c: char)
    requires d < 10
    ensures IsDigit(c) && DigitValue(c) == d
  {
    ('0' as int + d) as char
  }

  /** The decimal digits of a natural number, as `str(n)` writes them. */
  function ShowNat(n: nat): (s: string)
    ensures s != []
    ensures forall i :: 0 <= i < |s| ==> IsDigit(s[i])
  {
    if n < 10 then [DigitChar(n)] else ShowNat(n / 10) + [DigitChar(n % 10)]
  }

  /** `str(n)`. */
  function Show(n: int): string {
    if n < 0 then "-" + ShowNat(-n) else ShowNat(n)
  }

  lemma {:induction false} ShowNatValue(n: nat)
    ensures DigitsValue(ShowNat(n)) == n
  {
    var s := ShowNat(n);
    if n >= 10 {
      ShowNatValue(n / 10);
      assert s[..|s| - 1] == ShowNat(n / 10);
    }
  }

  lemma ShowNatGroup(n: nat)
    ensures IsDigitGroup(ShowNat(n))
    ensures IsIntStripped(ShowNat(n))
  {
    var s := ShowNat(n);
    assert IsDigit(s[0]) && IsDigit(s[|s| - 1]);
  }

  lemma ParseShowNat(m: nat)
    ensures ParseSigned(ShowNat(m)) == if |ShowNat(m)| <= MaxStrDigits then Some(m) else None
  {
    var digits := ShowNat(m);
    ShowNatGroup(m);
    ShowNatValue(m);
    DigitCountAll(digits);
    assert digits[0] != '+' && digits[0] != '-';
  }

  lemma ParseShowNegative(m: nat)
    requires m > 0
    ensures ParseSigned("-" + ShowNat(m))
         == if |ShowNat(m)| <= MaxStrDigits then Some(-(m as int)) else None
  {
    var digits := ShowNat(m);
    ShowNatGroup(m);
    ShowNatValue(m);
    DigitCountAll(digits);
    var s := "-" + digits;
    assert s[0] == '-' && s[1..] == digits;
  }

  lemma ShowStripped(n: int)
    ensures IsIntStripped(Show(n))
  {
    var m := if n < 0 then -n else n;
    var digits := ShowNat(m);
    ShowNatGroup(m);
    var s := Show(n);
    if n < 0 {
      assert s[|s| - 1] == digits[|digits| - 1];
    }
  }

  /** A number written out by `str` reads back as the same number, unless it has
      more digits than `int()` reads. */
  lemma ParseShow(n: int)
    ensures var m := if n < 0 then -n else n;
            ParseInt(Show(n)) == if |ShowNat(m)| <= MaxStrDigits then Some(n) else None
  {
    var text := Show(n);
    var m := if n < 0 then -n else n;
    var expected := if |ShowNat(m)| <= MaxStrDigits then Some(n) else None;
    ShowStripped(n);
    ParseStripped(text);
    if n < 0 {
      assert text == "-" + ShowNat(m);
      ParseShowNegative(m);
      assert ParseSigned(text) == expected;
    } else {
      assert text == ShowNat(m);
      ParseShowNat(m);
      assert ParseSigned(text) == expected;
    }
  }

  /** On a text with no surrounding whitespace, `int()` is the signed-digits reading. */
  lemma ParseStripped(t: string)
    requires IsIntStripped(t)
    ensures ParseInt(t) == ParseSigned(t)
  {
    IntStripStripped(t);
  }

  /** Whitespace that `int()` skips, around a number, does not stop it from reading it. */
  lemma ParsePadded(ws: string, text: string, ws': string)
    requires AllIntSpace(ws) && AllIntSpace(ws')
    ensures ParseInt(ws + text + ws') == ParseInt(text)
  {
    IntStripPadded(ws, text, ws');
  }

  /** A text that starts, after the whitespace `int()` skips, with neither a digit nor
      a sign is not a number. */
  lemma NoLeadingDigit(t: string)
    requires t != [] && IsIntStripped(t)
    requires !IsDigit(t[0]) && t[0] != '+' && t[0] != '-'
    ensures ParseInt(t) == None
  {
    IntStripStripped(t);
  }

  /** A digit group is read exactly when it has at most MaxStrDigits digits; a
      longer one makes `int()` raise, so the cell stays text. */
  lemma DigitLimit(body: string)
    requires IsDigitGroup(body)
    ensures ParseInt(body).Some? <==> DigitCount(body) <= MaxStrDigits
    ensures ParseInt(body).Some? ==> ParseInt(body).value == DigitsValue(body)
  {
    var first, last := body[0], body[|body| - 1];
    assert IsDigit(first) && IsDigit(last);
    assert !IsIntSpace(first) && !IsIntSpace(last);
    ParseStripped(body);
    assert first != '+' && first != '-';
    assert ParseSigned(body) == ParseDigits(body);
  }

  /** A leading unit separator (U+001F), which `strip()` would remove, makes `int()`
      raise. */
  lemma SeparatorIsNotSpace()
    ensures ParseInt("\U{1F}7") == None
  {
    var t := "\U{1F}7";
    assert t[0] == '\U{1F}' && t[|t| - 1] == '7';
    NoLeadingDigit(t);
  }

  /** A leading space is skipped. */
  lemma SpaceIsSkipped()
    ensures ParseInt(" 7") == Some(7)
  {
    var seven := ShowNat(7);
    assert seven == ['7'];
    var padded := " 7";
    assert padded == [' '] + seven;
    ParsePadded([' '], seven, []);
    assert [' '] + seven + [] == padded;
    ParseShowNat(7);
  }

  lemma DotsAreText()
    ensures ParseInt("..") == None
  {
    var dots := "..";
    assert dots[0] == '.' && dots[|dots| - 1] == '.';
    NoLeadingDigit(dots);
  }

  /** The SCB placeholder ".." and the empty cell are not numbers. */
  lemma PlaceholdersAreText()
    ensures ParseInt("..") == None && ParseInt("") == None
  {
    DotsAreText();
    EmptyIsText();
  }

  lemma EmptyIsText()
    ensures ParseInt("") == None
  {
    assert IntStrip("") == "";
    assert ParseDigits("") == None;
  }
}
