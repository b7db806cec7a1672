/** The lexical tokenizer of the search engine (services/mcp_server/src/ssyk_mcp/search.py,
    `SearchEngine._tokenize`): the maximal runs of characters of the class
    `[0-9a-zA-ZåäöÅÄÖ]`, each lowercased. The same function tokenizes the corpus at
    load time and the query at search time. */
module Tokenizer {
  import Text
  import opened Optional

  /** A member of the character class `[0-9a-zA-ZåäöÅÄÖ]`. */
  predicate IsWordChar(c: char) {
    ('0' <= c <= '9') || ('a' <= c <= 'z') || ('A' <= c <= 'Z')
    || c == 'å' || c == 'ä' || c == 'ö' || c == 'Å' || c == 'Ä' || c == 'Ö'
  }

  /** A word character as it appears in a token: digits and lower-case letters. */
  predicate IsTokenChar(c: char) {
    ('0' <= c <= '9') || ('a' <= c <= 'z') || c == 'å' || c == 'ä' || c == 'ö'
  }

  predicate IsToken(t: string) {
    t != [] && forall i :: 0 <= i < |t| ==> IsTokenChar(t[i])
  }

  /** Python's `lower()` on a word character: A-Z and Å, Ä, Ö move down by 32 code
      points, everything else in the class is already lower case. */
  function Lower(c: char): (r: char)
    requires IsWordChar(c)
    ensures IsTokenChar(r)
    ensures IsTokenChar(c) ==> r == c
  {
    if ('A' <= c <= 'Z') || c == 'Å' || c == 'Ä' || c == 'Ö' then (c as int + 32) as char
    else c
  }

  function LowerAll(w: string): (r: string)
    requires forall i :: 0 <= i < |w| ==> IsWordChar(w[i])
    ensures |r| == |w|
    ensures forall i :: 0 <= i < |w| ==> r[i] == Lower(w[i])
  {
    if w == [] then [] else [Lower(w[0])] + LowerAll(w[1..])
  }

  /** The length of the run of word characters that `s` starts with. */
  function RunLength(s: string): (k: nat)
    ensures k <= |s|
    ensures forall i :: 0 <= i < k ==> IsWordChar(s[i])
    ensures k < |s| ==> !IsWordChar(s[k])
  {
    if s != [] && IsWordChar(s[0]) then 1 + RunLength(s[1..]) else 0
  }

  /** `_TOKEN_RE.findall(s)` with every match lowercased: skip a separator, or take the
      whole run of word characters starting here. */
  function Tokenize(s: string): (tokens: seq<string>)
    ensures forall k :: 0 <= k < |tokens| ==> IsToken(tokens[k])
  {
    if s == [] then []
    else if !IsWordChar(s[0]) then Tokenize(s[1..])
    else
      var k := RunLength(s);
      [LowerAll(s[..k])] + Tokenize(s[k..])
  }

  /** `_tokenize(text)`, where an absent text counts as the empty string. */
  function TokenizeText(text: Option<string>): (tokens: seq<string>)
    ensures text.None? ==> tokens == []
    ensures forall k :: 0 <= k < |tokens| ==> IsToken(tokens[k])
  {
    Tokenize(text.GetOr(""))
  }

  lemma {:induction false} RunLengthIs(s: string, k: nat)
    requires k <= |s|
    requires forall i :: 0 <= i < k ==> IsWordChar(s[i])
    requires k < |s| ==> !IsWordChar(s[k])
    ensures RunLength(s) == k
  {
    if k > 0 {
      RunLengthIs(s[1..], k - 1);
    }
  }

  /** A text with no word character has no token. */
  lemma {:induction false} TokenizeNoWord(s: string)
    requires forall i :: 0 <= i < |s| ==> !IsWordChar(s[i])
    ensures Tokenize(s) == []
  {
    if s != [] {
      TokenizeNoWord(s[1..]);
    }
  }

  /** A run of word characters is exactly one token, its lower-case form. */
  lemma {:induction false} TokenizeWord(w: string)
    requires w != []
    requires forall i :: 0 <= i < |w| ==> IsWordChar(w[i])
    ensures Tokenize(w) == [LowerAll(w)]
  {
    RunLengthIs(w, |w|);
    assert w[..|w|] == w;
    assert w[|w|..] == [];
  }

  /** A separator splits the text: the tokens on either side neither merge nor
      change. Together with TokenizeWord and TokenizeNoWord this determines Tokenize. */
  lemma {:induction false} TokenizeSeparator(a: string, c: char, b: string)
    requires !IsWordChar(c)
    ensures Tokenize(a + [c] + b) == Tokenize(a) + Tokenize(b)
  {
    var s := a + [c] + b;
    if a == [] {
      assert s == [c] + b;
      assert s[1..] == b;
    } else if !IsWordChar(a[0]) {
      assert s[0] == a[0];
      assert s[1..] == a[1..] + [c] + b;
      TokenizeSeparator(a[1..], c, b);
    } else {
      var k := RunLength(a);
      assert s[0] == a[0];
      forall i | 0 <= i < k ensures IsWordChar(s[i]) {
        assert s[i] == a[i];
      }
      if k < |a| {
        assert s[k] == a[k];
      } else {
        assert s[k] == c;
      }
      RunLengthIs(s, k);
      assert s[..k] == a[..k];
      assert s[k..] == a[k..] + [c] + b;
      TokenizeSeparator(a[k..], c, b);
    }
  }

  lemma {:induction false} LowerAllToken(t: string)
    requires IsToken(t)
    ensures LowerAll(t) == t
  {
    if |t| > 1 {
      LowerAllToken(t[1..]);
    }
  }

  /** Tokens joined by spaces tokenize back to themselves. */
  lemma {:induction false} TokenizeJoined(tokens: seq<string>)
    requires forall k :: 0 <= k < |tokens| ==> IsToken(tokens[k])
    ensures Tokenize(Text.Join(tokens, " ")) == tokens
  {
    if tokens == [] {
    } else if |tokens| == 1 {
      TokenizeWord(tokens[0]);
      LowerAllToken(tokens[0]);
    } else {
      TokenizeJoined(tokens[1..]);
      TokenizeSeparator(tokens[0], ' ', Text.Join(tokens[1..], " "));
      TokenizeWord(tokens[0]);
      LowerAllToken(tokens[0]);
      assert tokens == [tokens[0]] + tokens[1..];
    }
  }

  /** Re-tokenizing the tokenizer's own output, written out with spaces, changes nothing. */
  lemma TokenizeIdempotent(s: string)
    ensures Tokenize(Text.Join(Tokenize(s), " ")) == Tokenize(s)
  {
    TokenizeJoined(Tokenize(s));
  }
}
