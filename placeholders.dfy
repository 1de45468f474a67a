// The placeholder scanner: an explicit left-to-right scan that finds the
// same matches, in the same order, as the global regular expression
// `\[([a-zA-Z]*)(\??)\]` run over a template with `exec` until it fails.
module Placeholders {
  import opened Strings

  predicate IsLetter(c: char) {
    'a' <= c <= 'z' || 'A' <= c <= 'Z'
  }

  predicate AllLetters(s: string) {
    forall k :: 0 <= k < |s| ==> IsLetter(s[k])
  }

  /** A string without an opening bracket: no placeholder can start in it. */
  predicate NoBracket(s: string) {
    forall k :: 0 <= k < |s| ==> s[k] != '['
  }

  /** A placeholder found in a template: `[key]`, or `[key?]` when it is
      optional, whose opening bracket is at index `start`. */
  datatype Token = Token(start: nat, key: string, optional: bool) {
    /** The exact text of the placeholder, as it is looked for when it is substituted. */
    function Text(): string {
      "[" + key + (if optional then "?" else "") + "]"
    }

    /** The index just past the closing bracket. */
    function End(): nat {
      start + |Text()|
    }
  }

  /** `t` is, as a whole, a string the placeholder pattern matches: a `[`,
      zero or more ASCII letters, an optional `?` and a `]`. */
  predicate IsPlaceholderText(t: string) {
    && |t| >= 2 && t[0] == '[' && t[|t| - 1] == ']'
    && (AllLetters(t[1..|t| - 1])
        || (|t| >= 3 && t[|t| - 2] == '?' && AllLetters(t[1..|t| - 2])))
  }

  /** The end of the run of letters that starts at index `i`. */
  function LetterRunEnd(s: string, i: nat): (e: nat)
    requires i <= |s|
    ensures i <= e <= |s|
    ensures forall k :: i <= k < e ==> IsLetter(s[k])
    ensures e == |s| || !IsLetter(s[e])
    decreases |s| - i
  {
    if i < |s| && IsLetter(s[i]) then LetterRunEnd(s, i + 1) else i
  }

  /** The match of the placeholder pattern that starts at index `j`, if any. */
  function MatchAt(s: string, j: nat): (m: Option<Token>)
    requires j <= |s|
    ensures m.Some? ==> m.value.start == j && m.value.End() <= |s|
    ensures m.Some? ==> s[j..m.value.End()] == m.value.Text() && AllLetters(m.value.key)
  {
    if j < |s| && s[j] == '[' then
      var e := LetterRunEnd(s, j + 1);
      var key := s[j + 1..e];
      if e < |s| && s[e] == ']' then
        assert s[j..e + 1] == "[" + key + "]";
        Some(Token(j, key, false))
      else if e + 1 < |s| && s[e] == '?' && s[e + 1] == ']' then
        assert s[j..e + 2] == "[" + key + "?" + "]";
        Some(Token(j, key, true))
      else
        None
    else
      None
  }

  /** Every token text is a placeholder text. */
  lemma TokenTextIsPlaceholder(t: Token)
    requires AllLetters(t.key)
    ensures IsPlaceholderText(t.Text())
  {
    var x := t.Text();
    if t.optional {
      assert x[1..|x| - 2] == t.key;
    } else {
      assert x[1..|x| - 1] == t.key;
    }
  }

  /** Where a placeholder text `s[j..e]` ends its letters: at `e - 1` for a
      required one, at `e - 2` (the `?`) for an optional one. */
  lemma PlaceholderLetters(s: string, j: nat, e: nat) returns (last: nat)
    requires j < e <= |s| && IsPlaceholderText(s[j..e])
    ensures j < last < e && s[j] == '[' && !IsLetter(s[last])
    ensures (last == e - 1 && s[last] == ']') || (last == e - 2 && s[last] == '?' && s[e - 1] == ']')
    ensures forall k :: j + 1 <= k < last ==> IsLetter(s[k])
  {
    var t := s[j..e];
    assert s[j] == t[0] && s[e - 1] == t[|t| - 1];
    if AllLetters(t[1..|t| - 1]) {
      last := e - 1;
      forall k | j + 1 <= k < last ensures IsLetter(s[k]) {
        assert s[k] == t[k - j] == t[1..|t| - 1][k - j - 1];
      }
    } else {
      last := e - 2;
      assert s[last] == t[|t| - 2];
      forall k | j + 1 <= k < last ensures IsLetter(s[k]) {
        assert s[k] == t[k - j] == t[1..|t| - 2][k - j - 1];
      }
    }
  }

  /** `MatchAt` is exact: a substring starting at `j` is matched by the
      placeholder pattern if and only if it is the text `MatchAt` found
      there. So there is at most one match at any index. */
  lemma MatchAtExact(s: string, j: nat, e: nat)
    requires j < e <= |s|
    ensures IsPlaceholderText(s[j..e]) <==> (MatchAt(s, j).Some? && MatchAt(s, j).value.End() == e)
  {
    var m := MatchAt(s, j);
    if m.Some? && m.value.End() == e {
      TokenTextIsPlaceholder(m.value);
    }
    if IsPlaceholderText(s[j..e]) {
      var last := PlaceholderLetters(s, j, e);
      assert LetterRunEnd(s, j + 1) == last;
    }
  }

  /** No placeholder starts inside another one: past its `[` a placeholder
      holds only letters, `?` and `]`. */
  lemma NoBracketInsideToken(s: string, t: Token, k: nat)
    requires t.End() <= |s| && s[t.start..t.End()] == t.Text() && AllLetters(t.key)
    requires t.start < k < t.End()
    ensures s[k] != '['
  {
    var x, i := t.Text(), k - t.start;
    assert s[k] == x[i];
    if i <= |t.key| {
      assert x[i] == t.key[i - 1];
    } else {
      assert x[i] == '?' || x[i] == ']';
    }
  }

  /** The first match at or after `from`: one step of the global regular
      expression, with `from` playing the part of its `lastIndex`. */
  function NextMatch(s: string, from: nat): (m: Option<Token>)
    requires from <= |s|
    ensures m.Some? ==> from <= m.value.start <= |s| && MatchAt(s, m.value.start) == m
    ensures forall j :: from <= j <= |s| && (m.None? || j < m.value.start) ==> MatchAt(s, j).None?
    decreases |s| - from
  {
    if MatchAt(s, from).Some? then MatchAt(s, from)
    else if from == |s| then None
    else NextMatch(s, from + 1)
  }

  /** All the matches from index `from` on, as repeated `exec` calls find them. */
  function TokensFrom(s: string, from: nat): (ts: seq<Token>)
    requires from <= |s|
    ensures forall k :: 0 <= k < |ts| ==> from <= ts[k].start <= |s| && MatchAt(s, ts[k].start) == Some(ts[k])
    ensures forall k :: 0 <= k < |ts| - 1 ==> ts[k].End() <= ts[k + 1].start
    decreases |s| - from
  {
    match NextMatch(s, from)
    case None => []
    case Some(t) => [t] + TokensFrom(s, t.End())
  }

  /** The placeholders of a template, left to right. */
  function Tokens(s: string): seq<Token> {
    TokensFrom(s, 0)
  }

  /** The scan misses nothing: every index at or after `from` where the
      pattern matches is the start of one of the tokens found. */
  lemma {:induction false} TokensFromComplete(s: string, from: nat, j: nat)
    requires from <= j <= |s| && MatchAt(s, j).Some?
    ensures exists k :: 0 <= k < |TokensFrom(s, from)| && TokensFrom(s, from)[k].start == j
    decreases |s| - from
  {
    var t := FirstTokenFrom(s, from, j);
    var rest := TokensFrom(s, t.End());
    if t.start == j {
      assert ([t] + rest)[0].start == j;
    } else {
      TokensFromComplete(s, t.End(), j);
      var k :| 0 <= k < |rest| && rest[k].start == j;
      assert ([t] + rest)[k + 1] == rest[k];
    }
  }

  /** When the pattern matches at `j`, the scan from `from <= j` finds a
      first token, which starts at `j` or ends at or before it. */
  lemma FirstTokenFrom(s: string, from: nat, j: nat) returns (t: Token)
    requires from <= j <= |s| && MatchAt(s, j).Some?
    ensures NextMatch(s, from) == Some(t) && TokensFrom(s, from) == [t] + TokensFrom(s, t.End())
    ensures from <= t.start && (t.start == j || t.End() <= j)
  {
    t := NextMatch(s, from).value;
    if t.start < j < t.End() {
      NoBracketInsideToken(s, t, j);
      assert false;
    }
  }

  /** The tokens of a template are exactly the matches of the placeholder
      pattern: an index starts a token if and only if the pattern matches there. */
  lemma TokensAreAllMatches(s: string, j: nat)
    requires j <= |s|
    ensures MatchAt(s, j).Some? <==> exists k :: 0 <= k < |Tokens(s)| && Tokens(s)[k].start == j
  {
    var ts := Tokens(s);
    if MatchAt(s, j).Some? {
      TokensFromComplete(s, 0, j);
    }
  }

  /** A placeholder text shows whether it is optional by its `?`. */
  lemma OptionalMark(t: Token)
    requires AllLetters(t.key)
    ensures t.optional <==> (|t.Text()| >= 3 && t.Text()[|t.Text()| - 2] == '?')
  {
    var x := t.Text();
    if !t.optional && |t.key| > 0 {
      assert x[|x| - 2] == t.key[|t.key| - 1];
    }
  }

  /** Different placeholder texts come from different (key, optional) pairs. */
  lemma TextInjective(t: Token, u: Token)
    requires AllLetters(t.key) && AllLetters(u.key) && t.Text() == u.Text()
    ensures t.key == u.key && t.optional == u.optional
  {
    var x := t.Text();
    OptionalMark(t);
    OptionalMark(u);
    assert t.key == x[1..1 + |t.key|] == u.key;
  }

  /** Where the text of a token with a letters-only key stands in a string,
      the scanner matches exactly that token. */
  lemma MatchOfText(s: string, t: Token)
    requires AllLetters(t.key) && t.End() <= |s| && s[t.start..t.End()] == t.Text()
    ensures MatchAt(s, t.start) == Some(t)
  {
    TokenTextIsPlaceholder(t);
    MatchAtExact(s, t.start, t.End());
    TextInjective(MatchAt(s, t.start).value, t);
  }

  /** Stretches without a `[` hold no match: the scan passes over them. */
  lemma {:induction false} NextMatchSkips(s: string, from: nat, j: nat)
    requires from <= j <= |s|
    requires forall k :: from <= k < j ==> s[k] != '['
    ensures NextMatch(s, from) == NextMatch(s, j)
    decreases j - from
  {
    if from < j {
      NextMatchSkips(s, from + 1, j);
    }
  }

  /** One step of the scan: the next token after a stretch without `[`. */
  lemma TokensFromStep(s: string, from: nat, t: Token)
    requires from <= t.start && AllLetters(t.key) && t.End() <= |s| && s[t.start..t.End()] == t.Text()
    requires forall k :: from <= k < t.start ==> s[k] != '['
    ensures TokensFrom(s, from) == [t] + TokensFrom(s, t.End())
  {
    MatchOfText(s, t);
    NextMatchSkips(s, from, t.start);
  }

  /** The last step of the scan: no `[` is left. */
  lemma TokensFromDone(s: string, from: nat)
    requires from <= |s|
    requires forall k :: from <= k < |s| ==> s[k] != '['
    ensures TokensFrom(s, from) == []
  {
    NextMatchSkips(s, from, |s|);
  }
}
