/** The few Python `str` operations the server relies on: `strip()`, `lower()` on
    ASCII letters, `split(sep)` and `sep.join(parts)`. */
module Text {

  /** The characters for which Python's `str.isspace()` holds; `strip()` with no
      argument removes exactly these. */
  predicate IsSpace(c: char) {
    c == ' ' || ('\t' <= c <= '\r') || ('\U{1C}' <= c <= '\U{1F}')
    || c == '\U{85}' || c == '\U{A0}' || c == '\U{1680}'
    || ('\U{2000}' <= c <= '\U{200A}') || c == '\U{2028}' || c == '\U{2029}'
    || c == '\U{202F}' || c == '\U{205F}' || c == '\U{3000}'
  }

  predicate AllSpace(s: string) {
    forall i :: 0 <= i < |s| ==> IsSpace(s[i])
  }

  /** A string with nothing for `strip()` to remove. */
  predicate IsStripped(s: string) {
    s == [] || (!IsSpace(s[0]) && !IsSpace(s[|s| - 1]))
  }

  function TrimLeft(s: string): (r: string)
    ensures |r| <= |s| && r == s[|s| - |r|..]
    ensures AllSpace(s[..|s| - |r|])
    ensures r == [] || !IsSpace(r[0])
  {
    if s != [] && IsSpace(s[0]) then
      var r := TrimLeft(s[1..]);
      var cut := |s| - |r|;
      assert forall i :: 0 < i < cut ==> s[..cut][i] == s[1..][..cut - 1][i - 1];
      r
    else s
  }

  function TrimRight(s: string): (r: string)
    ensures |r| <= |s| && r == s[..|r|]
    ensures AllSpace(s[|r|..])
    ensures r == [] || !IsSpace(r[|r| - 1])
  {
    if s != [] && IsSpace(s[|s| - 1]) then
      var r := TrimRight(s[..|s| - 1]);
      assert s[|r|..] == s[..|s| - 1][|r|..] + [s[|s| - 1]];
      r
    else s
  }

  /** Python's `s.strip()`. */
  function Strip(s: string): (r: string)
    ensures |r| <= |s|
    ensures IsStripped(r)
    ensures r == [] <==> AllSpace(s)
  {
    var l := TrimLeft(s);
    var r := TrimRight(l);
    assert r == [] ==> AllSpace(s) by {
      if r == [] {
        assert l == [];
        assert s[..|s|] == s;
      }
    }
    r
  }

  /** `strip()` only removes characters. */
  lemma StripSubset(s: string, c: char)
    requires c !in s
    ensures c !in Strip(s)
  {
    var l := TrimLeft(s);
    assert c !in l by { assert l == s[|s| - |l|..]; }
    var r := TrimRight(l);
    assert r == l[..|r|];
  }

  /** `rstrip()` is pinned down by its three properties: a prefix, followed only by
      whitespace, that does not itself end in whitespace. */
  lemma TrimRightUnique(s: string, r: string)
    requires |r| <= |s| && r == s[..|r|]
    requires AllSpace(s[|r|..])
    requires r == [] || !IsSpace(r[|r| - 1])
    ensures TrimRight(s) == r
  {
    var t := TrimRight(s);
    if |t| < |r| {
      assert false;
    } else if |r| < |t| {
      assert false;
    }
  }

  lemma {:induction false} TrimLeftNoop(s: string)
    requires s == [] || !IsSpace(s[0])
    ensures TrimLeft(s) == s
  {
  }

  lemma {:induction false} TrimLeftSpaces(ws: string, s: string)
    requires AllSpace(ws)
    ensures TrimLeft(ws + s) == TrimLeft(s)
  {
    if ws != [] {
      assert (ws + s)[1..] == ws[1..] + s;
      TrimLeftSpaces(ws[1..], s);
    } else {
      assert ws + s == s;
    }
  }

  lemma {:induction false} TrimRightSpaces(s: string, ws: string)
    requires AllSpace(ws)
    ensures TrimRight(s + ws) == TrimRight(s)
  {
    if ws != [] {
      assert (s + ws)[..|s + ws| - 1] == s + ws[..|ws| - 1];
      TrimRightSpaces(s, ws[..|ws| - 1]);
    } else {
      assert s + ws == s;
    }
  }

  lemma {:induction false} TrimLeftAllSpace(s: string)
    requires AllSpace(s)
    ensures TrimLeft(s) == []
  {
    if s != [] {
      TrimLeftAllSpace(s[1..]);
    }
  }

  lemma {:induction false} TrimLeftAppend(s: string, t: string)
    requires !AllSpace(s)
    ensures TrimLeft(s + t) == TrimLeft(s) + t
  {
    assert s != [];
    assert (s + t)[0] == s[0];
    if IsSpace(s[0]) {
      assert (s + t)[1..] == s[1..] + t;
      TrimLeftAppend(s[1..], t);
    }
  }

  /** Whitespace around a string does not change what `strip()` gives. */
  lemma {:induction false} StripPadded(ws: string, s: string, ws': string)
    requires AllSpace(ws) && AllSpace(ws')
    ensures Strip(ws + s + ws') == Strip(s)
  {
    assert ws + s + ws' == ws + (s + ws');
    TrimLeftSpaces(ws, s + ws');
    if AllSpace(s) {
      assert AllSpace(s + ws');
      TrimLeftAllSpace(s + ws');
      TrimLeftAllSpace(s);
    } else {
      TrimLeftAppend(s, ws');
      TrimRightSpaces(TrimLeft(s), ws');
    }
  }

  /** Leading whitespace stops at a non-space character, so only the first part of a
      concatenation is trimmed. */
  lemma {:induction false} TrimLeftConcat(a: string, b: string)
    requires b != [] && !IsSpace(b[0])
    ensures TrimLeft(a + b) == TrimLeft(a) + b
  {
    if a == [] {
      assert a + b == b;
    } else {
      assert (a + b)[0] == a[0];
      if IsSpace(a[0]) {
        assert (a + b)[1..] == a[1..] + b;
        TrimLeftConcat(a[1..], b);
      }
    }
  }

  /** Trailing whitespace stops at a non-space character, so only the last part of a
      concatenation is trimmed. */
  lemma TrimRightConcat(a: string, b: string)
    requires a == [] || !IsSpace(a[|a| - 1])
    ensures TrimRight(a + b) == a + TrimRight(b)
  {
    var t := TrimRight(b);
    var r := a + t;
    assert (a + b)[..|r|] == r;
    assert (a + b)[|r|..] == b[|t|..];
    if t != [] {
      assert r[|r| - 1] == t[|t| - 1];
    } else if a != [] {
      assert r[|r| - 1] == a[|a| - 1];
    }
    TrimRightUnique(a + b, r);
  }

  /** Trimming the left end first does not change what `strip()` gives. */
  lemma StripTrimLeft(s: string)
    ensures Strip(TrimLeft(s)) == Strip(s)
  {
    TrimLeftNoop(TrimLeft(s));
  }

  /** Trimming the right end first does not change what `strip()` gives. */
  lemma StripTrimRight(s: string)
    ensures Strip(TrimRight(s)) == Strip(s)
  {
    var r := TrimRight(s);
    var tail := s[|r|..];
    assert s == [] + r + tail;
    StripPadded([], r, tail);
  }

  /** Trimming never brings in a character that was not there. */
  lemma TrimSubset(s: string, c: char)
    requires c !in s
    ensures c !in TrimLeft(s) && c !in TrimRight(s)
  {
    var l := TrimLeft(s);
    assert l == s[|s| - |l|..];
    var r := TrimRight(s);
    assert r == s[..|r|];
  }

  /** `strip()` leaves an already stripped string alone. */
  lemma {:induction false} StripStripped(s: string)
    requires IsStripped(s)
    ensures Strip(s) == s
  {
    TrimLeftNoop(s);
    if s != [] {
      assert !IsSpace(s[|s| - 1]);
    }
  }

  /** Python's `c.lower()` restricted to ASCII letters. */
  function LowerAscii(c: char): (r: char)
    ensures 'A' <= c <= 'Z' ==> 'a' <= r <= 'z' && r as int - c as int == 32
    ensures !('A' <= c <= 'Z') ==> r == c
  {
    if 'A' <= c <= 'Z' then (c as int + 32) as char else c
  }

  /** Lowering a letter never makes or unmakes whitespace. */
  lemma LowerAsciiSpace(c: char)
    ensures IsSpace(LowerAscii(c)) == IsSpace(c)
  {
  }

  function LowerAsciiString(s: string): (r: string)
    ensures |r| == |s|
    ensures forall i :: 0 <= i < |s| ==> r[i] == LowerAscii(s[i])
  {
    if s == [] then [] else [LowerAscii(s[0])] + LowerAsciiString(s[1..])
  }

  /** Python's `s.split(sep)` for a one-character separator: one more piece than
      there are separators, none of them containing the separator. */
  function SplitOn(s: string, sep: char): (parts: seq<string>)
    ensures |parts| >= 1
    ensures forall k :: 0 <= k < |parts| ==> sep !in parts[k]
  {
    if s == [] then [[]]
    else if s[0] == sep then [[]] + SplitOn(s[1..], sep)
    else
      var rest := SplitOn(s[1..], sep);
      [[s[0]] + rest[0]] + rest[1..]
  }

  /** Python's `sep.join(parts)`. */
  function Join(parts: seq<string>, sep: string): string {
    if parts == [] then []
    else if |parts| == 1 then parts[0]
    else parts[0] + sep + Join(parts[1..], sep)
  }

  /** A join of several parts: the first part, the separator, then the rest. */
  lemma JoinCons(parts: seq<string>, sep: string)
    requires |parts| > 1
    ensures Join(parts, sep) == parts[0] + (sep + Join(parts[1..], sep))
  {
    assert parts[0] + sep + Join(parts[1..], sep) == parts[0] + (sep + Join(parts[1..], sep));
  }

  /** Splitting and joining on the same separator give back the original string. */
  lemma {:induction false} JoinSplit(s: string, sep: char)
    ensures Join(SplitOn(s, sep), [sep]) == s
  {
    if s == [] {
    } else if s[0] == sep {
      JoinSplit(s[1..], sep);
      assert s == [sep] + s[1..];
    } else {
      var rest := SplitOn(s[1..], sep);
      JoinSplit(s[1..], sep);
      if |rest| == 1 {
        assert s == [s[0]] + rest[0];
      } else {
        assert rest[1..][1..] == rest[2..];
        assert Join(rest, [sep]) == rest[0] + [sep] + Join(rest[1..], [sep]);
        assert s == [s[0]] + s[1..];
      }
    }
  }

  /** Splitting a join of separator-free pieces gives the pieces back. */
  lemma {:induction false} SplitJoin(parts: seq<string>, sep: char)
    requires parts != []
    requires forall k :: 0 <= k < |parts| ==> sep !in parts[k]
    ensures SplitOn(Join(parts, [sep]), sep) == parts
  {
    if |parts| == 1 {
      SplitNoSep(parts[0], [], sep);
      assert parts[0] + [] == parts[0];
    } else {
      var j := Join(parts[1..], [sep]);
      SplitJoin(parts[1..], sep);
      SplitNoSep(parts[0], [sep] + j, sep);
      assert ([sep] + j)[0] == sep;
      assert SplitOn([sep] + j, sep) == [[]] + SplitOn(j, sep);
      assert parts[0] + [] == parts[0];
      assert parts[0] + [sep] + j == parts[0] + ([sep] + j);
      assert ([sep] + j)[1..] == j;
      assert parts == [parts[0]] + parts[1..];
    }
  }

  /** A separator-free prefix is glued to the first piece of what follows. */
  lemma {:induction false} SplitNoSep(p: string, t: string, sep: char)
    requires sep !in p
    ensures SplitOn(p + t, sep) == [p + SplitOn(t, sep)[0]] + SplitOn(t, sep)[1..]
  {
    if p == [] {
      assert p + t == t;
      assert p + SplitOn(t, sep)[0] == SplitOn(t, sep)[0];
      assert SplitOn(t, sep) == [SplitOn(t, sep)[0]] + SplitOn(t, sep)[1..];
    } else {
      assert (p + t)[1..] == p[1..] + t;
      SplitNoSep(p[1..], t, sep);
      assert [p[0]] + (p[1..] + SplitOn(t, sep)[0]) == p + SplitOn(t, sep)[0];
    }
  }
}
