/**
 * The match test shared by both controllers (make_filterable.js:193-202, 365-373):
 * the search text is trimmed, every regular-expression metacharacter in it is
 * escaped, the result is compiled with the `i` flag and matched against an item's
 * text. Because the escaped pattern holds only literal characters, the test is a
 * case-insensitive substring search, which is what this module proves.
 */
module Matching {
  import opened Wrappers

  // ---------------------------------------------------------------------------
  // Trimming ($.trim)
  // ---------------------------------------------------------------------------

  /** ECMAScript WhiteSpace and LineTerminator code points: what `\s` and `$.trim` remove. */
  predicate IsWhitespace(c: char) {
    var n := c as int;
    n == 9 || n == 10 || n == 11 || n == 12 || n == 13 || n == 32 || n == 0xA0
    || n == 0x1680 || (0x2000 <= n <= 0x200A) || n == 0x2028 || n == 0x2029
    || n == 0x202F || n == 0x205F || n == 0x3000 || n == 0xFEFF
  }

  /** `s` holds nothing but whitespace. */
  predicate Blank(s: string) {
    forall k :: 0 <= k < |s| ==> IsWhitespace(s[k])
  }

  /** `s` without its leading whitespace. */
  function TrimStart(s: string): (r: string)
    ensures |r| <= |s|
    ensures r == [] <==> Blank(s)
    ensures r == [] || !IsWhitespace(r[0])
  {
    if s != [] && IsWhitespace(s[0]) then TrimStart(s[1..]) else s
  }

  /** `s` without its trailing whitespace. */
  function TrimEnd(s: string): (r: string)
    ensures |r| <= |s|
    ensures r == [] <==> Blank(s)
    ensures r == [] || (!IsWhitespace(r[|r| - 1]) && r[0] == s[0])
  {
    if s != [] && IsWhitespace(s[|s| - 1]) then TrimEnd(s[..|s| - 1]) else s
  }

  /** `$.trim(s)`: neither starts nor ends with whitespace, and is empty exactly
      when `s` is blank. */
  function Trim(s: string): (r: string)
    ensures |r| <= |s|
    ensures r == [] <==> Blank(s)
    ensures r == [] || (!IsWhitespace(r[0]) && !IsWhitespace(r[|r| - 1]))
  {
    TrimEnd(TrimStart(s))
  }

  /** TrimStart cuts off exactly the leading whitespace. */
  lemma {:induction false} TrimStartIsSuffix(s: string)
    ensures var r := TrimStart(s);
      r == s[|s| - |r|..] && forall k :: 0 <= k < |s| - |r| ==> IsWhitespace(s[k])
  {
    if s != [] && IsWhitespace(s[0]) {
      TrimStartIsSuffix(s[1..]);
    }
  }

  /** TrimEnd cuts off exactly the trailing whitespace. */
  lemma {:induction false} TrimEndIsPrefix(s: string)
    ensures var r := TrimEnd(s);
      r == s[..|r|] && forall k :: |r| <= k < |s| ==> IsWhitespace(s[k])
  {
    if s != [] && IsWhitespace(s[|s| - 1]) {
      TrimEndIsPrefix(s[..|s| - 1]);
    }
  }

  /** What trimming cuts off is whitespace at either end: the result is the slice
      of `s` after its leading and before its trailing whitespace. */
  lemma {:induction false} TrimCutsOnlyWhitespace(s: string)
    ensures var i := |s| - |TrimStart(s)|; var r := Trim(s);
      i + |r| <= |s| && r == s[i..i + |r|]
      && (forall k :: 0 <= k < i ==> IsWhitespace(s[k]))
      && (forall k :: i + |r| <= k < |s| ==> IsWhitespace(s[k]))
  {
    var t := TrimStart(s);
    TrimStartIsSuffix(s);
    TrimEndIsPrefix(t);
    var i, r := |s| - |t|, TrimEnd(t);
    assert t == s[i..];
    assert r == t[..|r|];
    assert t[..|r|] == s[i..i + |r|];
    forall k | i + |r| <= k < |s| ensures IsWhitespace(s[k]) {
      assert s[k] == t[k - i];
    }
  }

  /** A string that neither starts nor ends with whitespace is its own trim. */
  lemma {:induction false} TrimOfTrimmed(s: string)
    requires s == [] || (!IsWhitespace(s[0]) && !IsWhitespace(s[|s| - 1]))
    ensures Trim(s) == s
  {
    TrimStartIsSuffix(s);
    TrimEndIsPrefix(s);
  }

  /** Trimming twice is trimming once. */
  lemma {:induction false} TrimIdempotent(s: string)
    ensures Trim(Trim(s)) == Trim(s)
  {
    TrimOfTrimmed(Trim(s));
  }

  // ---------------------------------------------------------------------------
  // Escaping (searchText.replace(/[-[\]{}()*+?.,\\^$|#\s]/g, "\\$&"))
  // ---------------------------------------------------------------------------

  /** The characters of the escape class other than `\s`. */
  const EscapedPunctuation: set<char> :=
    {'-', '[', ']', '{', '}', '(', ')', '*', '+', '?', '.', ',', '\\', '^', '$', '|', '#'}

  /** The characters that the escape step prefixes with a backslash. */
  predicate IsMeta(c: char) {
    c in EscapedPunctuation || IsWhitespace(c)
  }

  /** Every metacharacter of `q` prefixed with a backslash, other characters kept. */
  function Escape(q: string): (r: string)
    ensures |q| <= |r| <= 2 * |q|
    ensures r == [] <==> q == []
  {
    if q == [] then []
    else (if IsMeta(q[0]) then ['\\', q[0]] else [q[0]]) + Escape(q[1..])
  }

  // ---------------------------------------------------------------------------
  // The literal fragment of JavaScript regular expressions
  // ---------------------------------------------------------------------------

  /** Characters that have a syntactic meaning in a pattern outside a class. */
  const SyntaxChars: set<char> :=
    {'^', '$', '\\', '.', '*', '+', '?', '(', ')', '[', ']', '{', '}', '|'}

  function Prepend(c: char, rest: Option<string>): Option<string> {
    match rest
    case Some(l) => Some([c] + l)
    case None => None
  }

  /**
   * The string a pattern matches literally, when the pattern consists only of
   * plain pattern characters and identity escapes of metacharacters (`\.`, `\ `,
   * `\-`, ...); None for any pattern outside that fragment (classes, groups,
   * quantifiers, anchors, alternation, other escapes), which the model does not
   * interpret.
   */
  function Literal(p: string): Option<string>
    decreases |p|
  {
    if p == [] then Some([])
    else if p[0] == '\\' then
      if |p| >= 2 && IsMeta(p[1]) then Prepend(p[1], Literal(p[2..])) else None
    else if p[0] in SyntaxChars then None
    else Prepend(p[0], Literal(p[1..]))
  }

  /** The escape step always yields a literal pattern, and it denotes the query
      itself: escaping makes every character of the query stand for itself. */
  lemma {:induction false} EscapeIsLiteral(q: string)
    ensures Literal(Escape(q)) == Some(q)
  {
    if q != [] {
      EscapeIsLiteral(q[1..]);
      var rest := Escape(q[1..]);
      if IsMeta(q[0]) {
        assert Escape(q) == ['\\', q[0]] + rest;
        assert Escape(q)[2..] == rest;
      } else {
        assert Escape(q) == [q[0]] + rest;
        assert Escape(q)[1..] == rest;
        assert q[0] !in SyntaxChars;
      }
      assert [q[0]] + q[1..] == q;
    }
  }

  // ---------------------------------------------------------------------------
  // Case-insensitive matching (the `i` flag)
  // ---------------------------------------------------------------------------

  /** ASCII case fold: upper-case letters to lower case, everything else kept. */
  function Fold(c: char): (r: char)
    ensures 'A' <= c <= 'Z' ==> 'a' <= r <= 'z' && r as int == c as int + 32
    ensures !('A' <= c <= 'Z') ==> r == c
  {
    if 'A' <= c <= 'Z' then (c as int + 32) as char else c
  }

  /** `lit` occurs in `text` at position `i`, up to case. */
  predicate OccursAt(text: string, lit: string, i: int) {
    0 <= i && i + |lit| <= |text| && forall k :: 0 <= k < |lit| ==> Fold(text[i + k]) == Fold(lit[k])
  }

  /** `lit` occurs somewhere in `text`, up to case. */
  predicate ContainsFolded(text: string, lit: string) {
    exists i :: 0 <= i <= |text| - |lit| && OccursAt(text, lit, i)
  }

  /** `new RegExp(pattern, 'i').test(text)` for a pattern of the literal fragment. */
  predicate RegexTest(pattern: string, text: string)
    requires Literal(pattern).Some?
  {
    ContainsFolded(text, Literal(pattern).value)
  }

  /** The test both controllers run on an item: trim, escape, compile with `i`, test. */
  function Matches(query: string, text: string): (r: bool)
    ensures Blank(query) ==> r
    ensures r ==> |Trim(query)| <= |text|
  {
    var q := Trim(query);
    EscapeIsLiteral(q);
    assert q == [] ==> OccursAt(text, q, 0);
    RegexTest(Escape(q), text)
  }

  /** Matching is a literal, case-insensitive substring test of the trimmed query. */
  lemma MatchesIsSubstring(query: string, text: string)
    ensures Matches(query, text) <==> ContainsFolded(text, Trim(query))
  {
    EscapeIsLiteral(Trim(query));
  }

  /** A string is found in any text that contains it verbatim. */
  lemma ContainsInfix(before: string, lit: string, after: string)
    ensures ContainsFolded(before + lit + after, lit)
  {
    var text := before + lit + after;
    assert forall k :: 0 <= k < |lit| ==> text[|before| + k] == lit[k];
    assert OccursAt(text, lit, |before|);
  }

  /** A query is found in any text that contains its trimmed form verbatim. */
  lemma MatchesContainingText(query: string, before: string, after: string)
    ensures Matches(query, before + Trim(query) + after)
  {
    ContainsInfix(before, Trim(query), after);
    MatchesIsSubstring(query, before + Trim(query) + after);
  }

  /** Matching ignores case on both sides. */
  lemma MatchesIgnoresCase(query: string, text: string, text': string)
    requires |text| == |text'|
    requires forall k :: 0 <= k < |text| ==> Fold(text[k]) == Fold(text'[k])
    ensures Matches(query, text) <==> Matches(query, text')
  {
    MatchesIsSubstring(query, text);
    MatchesIsSubstring(query, text');
    var q := Trim(query);
    if i :| OccursAt(text, q, i) {
      assert OccursAt(text', q, i);
    }
    if i :| OccursAt(text', q, i) {
      assert OccursAt(text, q, i);
    }
  }

  /** A dot in the query is literal: "a.b" is found in "a.b" but not in "axb". */
  lemma DotIsLiteral(query: string, text: string)
    requires query == "a.b"
    ensures Matches(query, query)
    ensures text == "axb" ==> !Matches(query, text)
  {
    DotQueryTrimmed();
    MatchesIsSubstring(query, query);
    MatchesIsSubstring(query, text);
    assert OccursAt(query, query, 0);
    if text == "axb" {
      assert !OccursAt(text, query, 0) by {
        assert Fold(text[1]) != Fold(query[1]);
      }
    }
  }

  lemma DotQueryTrimmed()
    ensures Trim("a.b") == "a.b"
  {
    var q := "a.b";
    assert !IsWhitespace(q[0]) && !IsWhitespace(q[2]);
    TrimOfTrimmed(q);
  }

  /** The dot is the one character of "a.b" that the escape step prefixes. */
  lemma EscapeOfDot()
    ensures Escape("a.b") == "a\\.b"
  {
    assert !IsMeta('a') && !IsMeta('b') && IsMeta('.');
    assert Escape("b") == "b";
    assert Escape(".b") == "\\.b";
  }

  /** A query of one character after trimming matches exactly the texts holding
      that character, up to case. */
  lemma MatchesSingleChar(query: string, text: string)
    requires |Trim(query)| == 1
    ensures Matches(query, text) <==> exists k :: 0 <= k < |text| && Fold(text[k]) == Fold(Trim(query)[0])
  {
    var q := Trim(query);
    MatchesIsSubstring(query, text);
    if k :| 0 <= k < |text| && Fold(text[k]) == Fold(q[0]) {
      assert OccursAt(text, q, k);
    }
  }

  /** A text in which the query's first character does not occur, in either case,
      does not match. */
  lemma FirstCharAbsent(query: string, text: string)
    requires Trim(query) != []
    requires forall k :: 0 <= k < |text| ==> Fold(text[k]) != Fold(Trim(query)[0])
    ensures !Matches(query, text)
  {
    MatchesIsSubstring(query, text);
    var q := Trim(query);
  }
}
