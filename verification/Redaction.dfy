/** go/internal/infrastructure/history/redact.go: the scanner that masks literals in a query before it is stored.
    The literal forms are those of section 4.1.2 of the PostgreSQL 16 documentation, as far as the code follows
    it: a backslash inside E'...' does not escape a quote here. Runes are Dafny characters. */
module Redaction {

  const MASK := "***"

  // ----- Character classes

  predicate IsDigit(c: char)
  {
    '0' <= c <= '9'
  }

  predicate IsIdentChar(c: char)
  {
    c == '_' || 'a' <= c <= 'z' || 'A' <= c <= 'Z' || IsDigit(c)
  }

  predicate IsStringPrefix(c: char)
  {
    c == 'e' || c == 'E' || c == 'x' || c == 'X' || c == 'b' || c == 'B'
  }

  predicate IsRadixPrefix(c: char)
  {
    c == 'x' || c == 'X' || c == 'o' || c == 'O' || c == 'b' || c == 'B'
  }

  predicate IsHexDigit(c: char)
  {
    IsDigit(c) || 'a' <= c <= 'f' || 'A' <= c <= 'F'
  }

  predicate InRadixNumber(c: char)
  {
    IsHexDigit(c) || c == '_'
  }

  predicate InDecimalNumber(c: char)
  {
    IsDigit(c) || c == '.' || c == '_'
  }

  // ----- Token lengths, read off the text that is left to scan

  /** How many leading characters belong to the class. */
  function Run(inClass: char -> bool, t: string): (n: nat)
    ensures n <= |t| && (n < |t| ==> !inClass(t[n])) && forall k :: 0 <= k < n ==> inClass(t[k])
  {
    if t == "" || !inClass(t[0]) then 0 else 1 + Run(inClass, t[1..])
  }

  /** From just behind an opening quote to just past the closing one, or to the end. */
  function QuotedTail(t: string): (n: nat)
    ensures n <= |t| && (t != "" ==> n > 0)
  {
    if t == "" then 0
    else if t[0] != '\'' then 1 + QuotedTail(t[1..])
    else if |t| > 1 && t[1] == '\'' then 2 + QuotedTail(t[2..])
    else 1
  }

  predicate StartsWith(t: string, d: string)
  {
    |d| <= |t| && t[..|d|] == d
  }

  /** The first position of d in t, or -1. */
  function IndexOf(t: string, d: string): (k: int)
    ensures -1 <= k && (k >= 0 ==> k + |d| <= |t|)
  {
    if StartsWith(t, d) then 0
    else if t == "" || IndexOf(t[1..], d) == -1 then -1
    else 1 + IndexOf(t[1..], d)
  }

  /** $1, $42: the placeholder's length, or 0. */
  function PlaceholderLength(t: string): (n: nat)
    requires t != ""
    ensures n <= |t| && n != 1
  {
    if |t| == 1 || !IsDigit(t[1]) then 0 else 1 + Run(IsDigit, t[1..])
  }

  /** $$...$$, $tag$...$tag$: the quote's length, up to the end if it is never closed, or 0. */
  function DollarQuoteLength(t: string): (n: nat)
    requires t != ""
    ensures n <= |t|
  {
    var tag := Run(IsIdentChar, t[1..]);
    if tag + 1 >= |t| || t[tag + 1] != '$' then 0
    else
      var close := IndexOf(t[tag + 2..], t[..tag + 2]);
      if close == -1 then |t| else tag + 2 + close + (tag + 2)
  }

  /** Where the digits of an exponent begin if one begins at j. */
  function ExponentDigits(t: string, j: nat): (k: nat)
    requires j < |t|
    ensures j < k <= |t|
  {
    if j + 1 < |t| && (t[j + 1] == '+' || t[j + 1] == '-') then j + 2 else j + 1
  }

  /** The length of a number whose mantissa has length j, with its exponent if it has a complete one. */
  function WithExponent(t: string, j: nat): (n: nat)
    requires j <= |t|
    ensures j <= n <= |t|
  {
    if j < |t| && (t[j] == 'e' || t[j] == 'E') && ExponentDigits(t, j) < |t| && IsDigit(t[ExponentDigits(t, j)])
    then ExponentDigits(t, j) + Run(IsDigit, t[ExponentDigits(t, j)..])
    else j
  }

  /** The length of the numeric literal that t starts with. */
  function NumericLength(t: string): (n: nat)
    requires t != "" && IsDigit(t[0])
    ensures 0 < n <= |t|
  {
    if t[0] == '0' && |t| > 1 && IsRadixPrefix(t[1]) then 2 + Run(InRadixNumber, t[2..])
    else WithExponent(t, Run(InDecimalNumber, t))
  }

  // ----- The scanner as a function of the remaining text

  datatype Token =
    | Masked(length: nat)
    | Placeholder(length: nat)
    | Verbatim

  function Length(token: Token): nat
  {
    if token.Verbatim? then 1 else token.length
  }

  /** The token at the head of t; `afterIdent` says whether an identifier character stands before it. */
  function NextToken(afterIdent: bool, t: string): (token: Token)
    requires t != ""
    ensures 0 < Length(token) <= |t|
  {
    var c := t[0];
    if c == '$' then
      if PlaceholderLength(t) > 0 then Placeholder(PlaceholderLength(t))
      else if DollarQuoteLength(t) > 0 then Masked(DollarQuoteLength(t))
      else Verbatim
    else if IsStringPrefix(c) && !afterIdent && |t| > 1 && t[1] == '\'' then Masked(2 + QuotedTail(t[2..]))
    else if c == '\'' then Masked(1 + QuotedTail(t[1..]))
    else if IsDigit(c) && !afterIdent then Masked(NumericLength(t))
    else Verbatim
  }

  function Image(token: Token, t: string): string
    requires Length(token) <= |t|
  {
    if token.Masked? then MASK else t[..Length(token)]
  }

  /** What the scanner writes for the text t that is left. */
  function Redacted(afterIdent: bool, t: string): string
    decreases |t|
  {
    if t == "" then ""
    else
      var token := NextToken(afterIdent, t);
      var n := Length(token);
      Image(token, t) + Redacted(IsIdentChar(t[n - 1]), t[n..])
  }

  function Redact(query: string): string
  {
    Redacted(false, query)
  }

  // ----- The code, index by index

  method SkipSingleQuoteLiteral(runes: string, quoteIndex: nat) returns (i: nat)
    requires quoteIndex < |runes|
    ensures i == quoteIndex + 1 + QuotedTail(runes[quoteIndex + 1..])
  {
    i := quoteIndex + 1;
    while i < |runes|
      invariant quoteIndex + 1 <= i <= |runes|
      invariant i + QuotedTail(runes[i..]) == quoteIndex + 1 + QuotedTail(runes[quoteIndex + 1..])
    {
      if runes[i] == '\'' {
        if i + 1 < |runes| && runes[i + 1] == '\'' {
          assert runes[i..][2..] == runes[i + 2..];
          i := i + 2;
          continue;
        }
        return i + 1;
      }
      assert runes[i..][1..] == runes[i + 1..];
      i := i + 1;
    }
  }

  method SkipPlaceholder(runes: string, dollarIndex: nat) returns (end: nat, matched: bool)
    requires dollarIndex < |runes|
    ensures matched <==> PlaceholderLength(runes[dollarIndex..]) > 0
    ensures end == dollarIndex + PlaceholderLength(runes[dollarIndex..])
  {
    var j := dollarIndex + 1;
    assert runes[dollarIndex..][1..] == runes[j..];
    if j >= |runes| || !IsDigit(runes[j]) {
      return dollarIndex, false;
    }
    j := ScanRun(IsDigit, runes, j);
    return j, true;
  }

  /** The loop that advances an index over one class of characters. */
  method ScanRun(inClass: char -> bool, runes: string, start: nat) returns (j: nat)
    requires start <= |runes|
    ensures j == start + Run(inClass, runes[start..])
  {
    j := start;
    while j < |runes| && inClass(runes[j])
      invariant start <= j <= |runes|
      invariant j + Run(inClass, runes[j..]) == start + Run(inClass, runes[start..])
    {
      assert runes[j..][1..] == runes[j + 1..];
      j := j + 1;
    }
  }

  function Shifted(k: int, offset: nat): int
  {
    if k == -1 then -1 else k + offset
  }

  predicate OccursAt(runes: string, k: int, d: string)
  {
    0 <= k && k + |d| <= |runes| && runes[k..k + |d|] == d
  }

  /** The first occurrence from a position on; -1 means there is none. */
  method IndexOfRuneSeq(runes: string, from: nat, d: string) returns (k: int)
    requires from <= |runes|
    ensures k == -1 || (from <= k && OccursAt(runes, k, d))
    ensures forall i :: from <= i && OccursAt(runes, i, d) ==> from <= k <= i
    ensures k == Shifted(IndexOf(runes[from..], d), from)
  {
    hide IndexOf;
    k := from;
    while k + |d| <= |runes|
      invariant from <= k <= |runes|
      invariant forall i :: from <= i < k ==> !OccursAt(runes, i, d)
      invariant Shifted(IndexOf(runes[from..], d), from) == Shifted(IndexOf(runes[k..], d), k)
    {
      var matches := MatchesAt(runes, k, d);
      IndexOfStep(runes, k, d);
      if matches {
        return k;
      }
      k := k + 1;
    }
    TooShortToMatch(runes[k..], d);
    return -1;
  }

  lemma IndexOfStep(runes: string, k: nat, d: string)
    requires k + |d| <= |runes|
    ensures OccursAt(runes, k, d) ==> IndexOf(runes[k..], d) == 0
    ensures !OccursAt(runes, k, d) ==>
      k < |runes| && Shifted(IndexOf(runes[k..], d), k) == Shifted(IndexOf(runes[k + 1..], d), k + 1)
  {
    assert runes[k..k + |d|] == runes[k..][..|d|];
    assert k < |runes| ==> runes[k..][1..] == runes[k + 1..];
  }

  lemma {:induction false} TooShortToMatch(t: string, d: string)
    requires |t| < |d|
    ensures IndexOf(t, d) == -1
  {
    if t != "" {
      TooShortToMatch(t[1..], d);
    }
  }

  method MatchesAt(runes: string, k: nat, d: string) returns (matches: bool)
    requires k + |d| <= |runes|
    ensures matches <==> runes[k..k + |d|] == d
  {
    matches := true;
    for m := 0 to |d|
      invariant matches && forall i :: 0 <= i < m ==> runes[k + i] == d[i]
    {
      if runes[k + m] != d[m] {
        assert runes[k..k + |d|][m] != d[m];
        return false;
      }
    }
  }

  method SkipDollarQuote(runes: string, dollarIndex: nat) returns (end: nat, matched: bool)
    requires dollarIndex < |runes|
    ensures matched <==> DollarQuoteLength(runes[dollarIndex..]) > 0
    ensures matched ==> end == dollarIndex + DollarQuoteLength(runes[dollarIndex..])
  {
    hide IndexOf;
    ghost var t := runes[dollarIndex..];
    assert t[1..] == runes[dollarIndex + 1..];
    var j := ScanRun(IsIdentChar, runes, dollarIndex + 1);
    if j >= |runes| || runes[j] != '$' {
      return dollarIndex, false;
    }
    var delimiter := runes[dollarIndex..j + 1];
    var contentStart := j + 1;
    assert delimiter == t[..j + 1 - dollarIndex] && runes[contentStart..] == t[j + 1 - dollarIndex..];
    var closeIdx := IndexOfRuneSeq(runes, contentStart, delimiter);
    if closeIdx == -1 {
      return |runes|, true;
    }
    return closeIdx + |delimiter|, true;
  }

  method ScanNumericLiteral(runes: string, start: nat) returns (j: nat)
    requires start < |runes| && IsDigit(runes[start])
    ensures j == start + NumericLength(runes[start..])
  {
    ghost var t := runes[start..];
    j := start;
    if runes[j] == '0' && j + 1 < |runes| && IsRadixPrefix(runes[j + 1]) {
      assert t[2..] == runes[j + 2..];
      j := ScanRun(InRadixNumber, runes, j + 2);
      return j;
    }
    j := ScanRun(InDecimalNumber, runes, j);
    j := ScanExponent(runes, start, j);
  }

  /** The end of scanNumericLiteral: takes the exponent along if it is complete. */
  method ScanExponent(runes: string, start: nat, mantissaEnd: nat) returns (j: nat)
    requires start <= mantissaEnd <= |runes|
    ensures j == start + WithExponent(runes[start..], mantissaEnd - start)
  {
    ghost var t := runes[start..];
    j := mantissaEnd;
    if j < |runes| && (runes[j] == 'e' || runes[j] == 'E') {
      assert t[j - start] == runes[j];
      var k := j + 1;
      if k < |runes| && (runes[k] == '+' || runes[k] == '-') {
        k := k + 1;
      }
      assert k - start == ExponentDigits(t, j - start);
      if k < |runes| && IsDigit(runes[k]) {
        assert t[k - start] == runes[k] && t[k - start..] == runes[k..];
        k := ScanRun(IsDigit, runes, k);
        j := k;
      }
    }
  }

  function RedactedFrom(runes: string, i: nat): string
    requires i <= |runes|
  {
    Redacted(i > 0 && IsIdentChar(runes[i - 1]), runes[i..])
  }

  function TokenAt(runes: string, i: nat): (token: Token)
    requires i < |runes|
    ensures 0 < Length(token) <= |runes| - i
  {
    NextToken(i > 0 && IsIdentChar(runes[i - 1]), runes[i..])
  }

  lemma RedactedFromNext(runes: string, i: nat, next: nat)
    requires i < |runes| && next == i + Length(TokenAt(runes, i))
    ensures RedactedFrom(runes, i) == Image(TokenAt(runes, i), runes[i..]) + RedactedFrom(runes, next)
  {
    hide NextToken;
    assert runes[i..][next - i..] == runes[next..] && runes[i..][next - i - 1] == runes[next - 1];
  }

  /** Writing the image of the token at i keeps what is written so far a prefix of the result. */
  lemma WritesOn(b: string, runes: string, i: nat, next: nat, image: string)
    requires i < |runes| && next == i + Length(TokenAt(runes, i)) && image == Image(TokenAt(runes, i), runes[i..])
    ensures (b + image) + RedactedFrom(runes, next) == b + RedactedFrom(runes, i)
  {
    RedactedFromNext(runes, i, next);
  }

  method RedactQueryLiterals(query: string) returns (b: string)
    ensures b == Redact(query)
  {
    var runes := query;
    b := [];
    var i := 0;
    while i < |runes|
      invariant 0 <= i <= |runes|
      invariant b + RedactedFrom(runes, i) == Redact(runes)
    {
      var next, image := ScanToken(runes, i);
      WritesOn(b, runes, i, next, image);
      b := b + image;
      i := next;
    }
  }

  /** One round of the main loop: where it continues, and what it appends. */
  method ScanToken(runes: string, i: nat) returns (next: nat, image: string)
    requires i < |runes|
    ensures next == i + Length(TokenAt(runes, i))
    ensures image == Image(TokenAt(runes, i), runes[i..])
  {
    var c := runes[i];
    ghost var t := runes[i..];
    if c == '$' {
      var end, isPlaceholder := SkipPlaceholder(runes, i);
      if isPlaceholder {
        assert runes[i..end] == t[..end - i];
        return end, runes[i..end];
      }
      var close, matched := SkipDollarQuote(runes, i);
      if matched {
        return close, MASK;
      }
      return i + 1, [c];
    }
    if IsStringPrefix(c) && (i == 0 || !IsIdentChar(runes[i - 1])) && i + 1 < |runes| && runes[i + 1] == '\'' {
      assert t[2..] == runes[i + 2..];
      next := SkipSingleQuoteLiteral(runes, i + 1);
      return next, MASK;
    }
    if c == '\'' {
      assert t[1..] == runes[i + 1..];
      next := SkipSingleQuoteLiteral(runes, i);
      return next, MASK;
    }
    if IsDigit(c) && (i == 0 || !IsIdentChar(runes[i - 1])) {
      next := ScanNumericLiteral(runes, i);
      return next, MASK;
    }
    return i + 1, [c];
  }
}
