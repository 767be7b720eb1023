/** The scanner of go/internal/infrastructure/history/redact.go against the lexical structure of a whole query (section
    4.1 of the PostgreSQL 16 documentation): exactly when it masks every literal and touches nothing else. */
module LexedQueries {
  import opened Redaction
  import opened RedactionProperties
  import opened ScannerPositions
  import opened LiteralContents
  import opened EscapeStrings
  import opened Numbers

  // ----- Queries as PostgreSQL reads them

  /** Identifiers go on with ASCII letters, digits, underscores and dollar signs, and with everything above ASCII. */
  predicate ContinuesIdentifier(c: char)
  {
    || 'a' <= c <= 'z' || 'A' <= c <= 'Z' || '0' <= c <= '9' || c == '_' || c == '$'
    || AboveAscii(c)
  }

  predicate AboveAscii(c: char)
  {
    c >= '\U{0080}'
  }

  /** A stretch is everything between two literals: words, numbers, operators, white space, comments, quoted
      identifiers. The cut ones are literals in the middle of which the query ends. */
  datatype Lexeme =
    | Stretch(text: string)
    | Parameter(digits: string)               // $1
    | Plain(value: string)                    // '...', quotes doubled
    | Bits(prefix: char, value: string)       // X'...' and B'...'
    | Escape(e: char, content: string)        // E'...'
    | Dollar(tag: string, content: string)    // $tag$...$tag$
    | CutPlain(value: string)
    | CutBits(prefix: char, value: string)
    | CutEscape(e: char, content: string)
    | CutDollar(tag: string, content: string)

  /** The lexeme in front of the rest of the query. */
  function Before(l: Lexeme, rest: string): string
  {
    match l
    case Stretch(text) => text + rest
    case Parameter(digits) => ("$" + digits) + rest
    case Plain(value) => "'" + (Doubled(value) + ("'" + rest))
    case Bits(prefix, value) => [prefix] + ("'" + (Doubled(value) + ("'" + rest)))
    case Escape(e, content) => [e] + ("'" + (content + ("'" + rest)))
    case Dollar(tag, content) => Delimiter(tag) + (content + (Delimiter(tag) + rest))
    case CutPlain(value) => "'" + Doubled(value)
    case CutBits(prefix, value) => [prefix] + ("'" + Doubled(value))
    case CutEscape(e, content) => [e] + ("'" + content)
    case CutDollar(tag, content) => Delimiter(tag) + content
  }

  function Query(ls: seq<Lexeme>): string
  {
    if ls == [] then "" else Before(ls[0], Query(ls[1..]))
  }

  predicate IsBitPrefix(c: char)
  {
    c == 'x' || c == 'X' || c == 'b' || c == 'B'
  }

  predicate IsEscapePrefix(c: char)
  {
    c == 'e' || c == 'E'
  }

  predicate IsTag(tag: string)
  {
    !StartsWithDigit(tag) && forall k :: 0 <= k < |tag| ==> ContinuesIdentifier(tag[k]) && tag[k] != '$'
  }

  /** Content of an escape string that may end behind a backslash. */
  predicate CutEscapeContent(c: string)
  {
    EscapeContent(c) || (c != "" && c[|c| - 1] == '\\' && EscapeContent(c[..|c| - 1]))
  }

  /** How PostgreSQL tells a lexeme from what follows, where `ident` says whether it stands behind an identifier. */
  predicate Lexical(ident: bool, l: Lexeme, rest: string)
  {
    match l
    case Stretch(text) => text != ""
    case Parameter(digits) =>
      digits != "" && (forall k :: 0 <= k < |digits| ==> IsDigit(digits[k])) && !StartsWithDigit(rest)
    case Plain(_) => Follows(rest)
    case Bits(prefix, _) => !ident && IsBitPrefix(prefix) && Follows(rest)
    case Escape(e, content) => !ident && IsEscapePrefix(e) && EscapeContent(content) && Follows(rest)
    case Dollar(tag, content) => IsTag(tag) && IndexOf(content + (Delimiter(tag) + rest), Delimiter(tag)) == |content|
    case CutPlain(_) => true
    case CutBits(prefix, _) => !ident && IsBitPrefix(prefix)
    case CutEscape(e, content) => !ident && IsEscapePrefix(e) && CutEscapeContent(content)
    case CutDollar(tag, content) => IsTag(tag) && IndexOf(content, Delimiter(tag)) == -1
  }

  predicate IsCut(l: Lexeme)
  {
    l.CutPlain? || l.CutBits? || l.CutEscape? || l.CutDollar?
  }

  /** Whether an identifier character of PostgreSQL's stands at a position of a stretch, or before it at its start. */
  predicate IdentifierBefore(ident: bool, text: string, i: nat)
    requires i <= |text|
  {
    if i == 0 then ident else ContinuesIdentifier(text[i - 1])
  }

  predicate IdentifierBehind(ident: bool, l: Lexeme)
  {
    match l
    case Stretch(text) => IdentifierBefore(ident, text, |text|)
    case Parameter(_) => true
    case _ => false
  }

  /** Stretches are as long as they can be, and only the last literal may be cut. */
  predicate Lexed(ident: bool, ls: seq<Lexeme>)
    decreases |ls|
  {
    || ls == []
    || (&& Lexical(ident, ls[0], Query(ls[1..])) && Lexed(IdentifierBehind(ident, ls[0]), ls[1..])
        && (|ls| > 1 ==> !IsCut(ls[0]) && !(ls[0].Stretch? && ls[1].Stretch?)))
  }

  /** No backslash in an escape string escapes a quote; what happens otherwise is the subject of EscapeStrings. */
  predicate HidesNothing(l: Lexeme)
  {
    l.Escape? || l.CutEscape? ==> !HidesQuote(l.content)
  }

  // ----- What a faithful redaction writes

  /** The stretch from a position on, every number in it masked and every other character kept. A number starts at a
      digit that does not go on with an identifier, and is as long as it can be. */
  function NumbersMasked(ident: bool, text: string, i: nat): string
    requires i <= |text|
    decreases |text| - i
  {
    if i == |text| then ""
    else if IsDecimalDigit(text[i]) && !IdentifierBefore(ident, text, i) then
      MASK + NumbersMasked(ident, text, i + LongestNumber(text[i..], |text| - i))
    else [text[i]] + NumbersMasked(ident, text, i + 1)
  }

  function Output(ident: bool, l: Lexeme): string
  {
    match l
    case Stretch(text) => NumbersMasked(ident, text, 0)
    case Parameter(digits) => "$" + digits
    case _ => MASK
  }

  /** Every literal and every number masked, and everything else kept. */
  function Faithful(ident: bool, ls: seq<Lexeme>): string
    decreases |ls|
  {
    if ls == [] then "" else Output(ident, ls[0]) + Faithful(IdentifierBehind(ident, ls[0]), ls[1..])
  }

  // ----- What the scanner misreads

  /** Not between literals for the scanner: a quote, in a comment or a quoted identifier, say; a dollar sign that opens
      a dollar quote; a digit that goes on with an identifier behind a letter above ASCII; and, in front of a string, a
      letter of the kind that makes strings of its own, but at the end of an identifier. */
  predicate Misread(f: bool, text: string, rest: string, k: nat)
    requires k < |text|
  {
    || text[k] == '\''
    || (text[k] == '$' && !StartsWithDigit(text[k + 1..] + rest) && OpensDollar(text[k + 1..] + rest))
    || (IsDigit(text[k]) && k > 0 && AboveAscii(text[k - 1]))
    || (IsStringPrefix(text[k]) && k + 1 == |text| && !Follows(rest) && !FlagAt(f, text, k))
  }

  /** What the scanner relies on. */
  predicate Fits(f: bool, l: Lexeme, rest: string)
  {
    match l
    case Stretch(text) => forall k :: 0 <= k < |text| ==> !Misread(f, text, rest, k)
    case Dollar(tag, _) => IsPlainTag(tag)
    case CutDollar(tag, _) => IsPlainTag(tag)
    case _ => true
  }

  /** Whether an identifier character of the scanner's ends the lexeme. */
  function EndsIdent(f: bool, l: Lexeme): bool
  {
    match l
    case Stretch(text) => FlagAt(f, text, |text|)
    case Parameter(_) => true
    case _ => false
  }

  predicate AllFit(f: bool, ls: seq<Lexeme>)
    decreases |ls|
  {
    ls == [] || (Fits(f, ls[0], Query(ls[1..])) && AllFit(EndsIdent(f, ls[0]), ls[1..]))
  }

  // ----- Numbers in a stretch

  predicate StartsPrefixed(rest: string)
  {
    |rest| > 1 && IsStringPrefix(rest[0]) && rest[1] == '\''
  }

  /** What follows a stretch does not prolong a number in it. */
  predicate NumberStops(text: string, rest: string)
  {
    || rest == "" || rest[0] == '$' || rest[0] == '\''
    || (StartsPrefixed(rest) && text != "" && !IsIdentChar(text[|text| - 1]))
  }

  lemma {:induction false} RunStops(inClass: char -> bool, x: string, rest: string)
    requires rest == "" || !inClass(rest[0]) || (x != "" && !inClass(x[|x| - 1]))
    ensures Run(inClass, x + rest) == Run(inClass, x)
  {
    if x == "" {
      assert x + rest == rest;
    } else {
      assert (x + rest)[1..] == x[1..] + rest;
      if inClass(x[0]) {
        RunStops(inClass, x[1..], rest);
      }
    }
  }

  lemma ExponentStops(text: string, rest: string, j: nat)
    requires NumberStops(text, rest) && j <= |text|
    ensures WithExponent(text + rest, j) == WithExponent(text, j)
  {
    hide Run;
    var t := text + rest;
    if j < |text| && (text[j] == 'e' || text[j] == 'E') {
      var k := ExponentDigits(text, j);
      assert ExponentDigits(t, j) == k;
      if k < |text| {
        assert t[k..] == text[k..] + rest;
        RunStops(IsDigit, text[k..], rest);
      }
    }
  }

  lemma NumberInStretch(text: string, rest: string)
    requires text != "" && IsDigit(text[0]) && NumberStops(text, rest)
    ensures NumericLength(text + rest) == NumericLength(text)
  {
    hide Run, WithExponent;
    var t := text + rest;
    if text[0] == '0' && |text| > 1 && IsRadixPrefix(text[1]) {
      assert t[2..] == text[2..] + rest;
      assert |text| > 2 ==> text[2..][|text| - 3] == text[|text| - 1];
      RunStops(InRadixNumber, text[2..], rest);
    } else {
      RunStops(InDecimalNumber, text, rest);
      ExponentStops(text, rest, Run(InDecimalNumber, text));
    }
  }

  /** No character of a number is one the scanner could misread. */
  lemma NumberCharacter(t: string, k: nat)
    requires t != "" && IsDigit(t[0]) && k < NumericLength(t)
    ensures t[k] != '\'' && t[k] != '$' && !AboveAscii(t[k])
    ensures k + 1 == NumericLength(t) && IsStringPrefix(t[k]) ==> k > 0 && IsIdentChar(t[k - 1])
  {
    hide WithExponent;
    if t[0] == '0' && |t| > 1 && IsRadixPrefix(t[1]) {
      assert k >= 2 ==> t[k] == t[2..][k - 2];
      assert k >= 3 ==> t[k - 1] == t[2..][k - 3];
    } else {
      DecimalCharacter(t, k);
    }
  }

  lemma DecimalCharacter(t: string, k: nat)
    requires t != "" && IsDigit(t[0]) && k < WithExponent(t, Run(InDecimalNumber, t))
    ensures InDecimalNumber(t[k]) || t[k] == 'e' || t[k] == 'E' || t[k] == '+' || t[k] == '-'
    ensures k + 1 == WithExponent(t, Run(InDecimalNumber, t)) ==> InDecimalNumber(t[k])
  {
    var j := Run(InDecimalNumber, t);
    if k >= j {
      var d := ExponentDigits(t, j);
      assert k >= d ==> t[k] == t[d..][k - d];
    }
  }

  lemma NothingInNumber(f: bool, text: string, rest: string, i: nat, k: nat)
    requires i <= k < |text| && IsDigit(text[i]) && k < i + NumericLength(text[i..])
    requires k == i ==> !Misread(f, text, rest, i)
    ensures !Misread(f, text, rest, k)
  {
    hide NumericLength;
    NumberCharacter(text[i..], k - i);
    if k > i {
      NumberCharacter(text[i..], k - 1 - i);
    }
  }

  // ----- One step of the scanner and of the faithful redaction

  /** What the scanner writes from a position of a stretch on. */
  function From(f: bool, text: string, rest: string, i: nat): string
    requires i <= |text|
  {
    Redacted(FlagAt(f, text, i), text[i..] + rest)
  }

  /** The scanner does not stop between a dollar sign and a digit. */
  predicate NotInParameter(text: string, i: nat)
    requires i <= |text|
  {
    0 < i < |text| && text[i - 1] == '$' ==> !IsDigit(text[i])
  }

  /** The scanner starts a mask at the position, and the character there is not to be masked. */
  predicate Wrong(f: bool, text: string, rest: string, i: nat)
    requires i < |text|
  {
    || Misread(f, text, rest, i)
    || (IsStringPrefix(text[i]) && i + 1 < |text| && text[i + 1] == '\'' && !FlagAt(f, text, i))
  }

  lemma AtPosition(text: string, rest: string, i: nat)
    requires i < |text|
    ensures var u := text[i..] + rest;
            && u[0] == text[i] && u[1..] == text[i + 1..] + rest
            && (i + 1 < |text| ==> u[1] == text[i + 1]) && (i + 1 == |text| ==> u[1..] == rest)
  {
  }

  lemma WrongIsMasked(f: bool, text: string, rest: string, i: nat)
    requires i < |text| && Wrong(f, text, rest, i) && NotInParameter(text, i)
    ensures NextToken(FlagAt(f, text, i), text[i..] + rest).Masked?
  {
    hide NumericLength, DollarQuoteLength, QuotedTail;
    var u := text[i..] + rest;
    AtPosition(text, rest, i);
    if text[i] == '$' {
      DollarQuoteNeedsOpening(u);
      assert PlaceholderLength(u) == 0;
    }
  }

  lemma WrongDiffers(f: bool, ident: bool, text: string, rest: string, i: nat, tail: string)
    requires i < |text| && Wrong(f, text, rest, i) && NotInParameter(text, i)
    requires i == 0 ==> f == ident
    ensures From(f, text, rest, i) != NumbersMasked(ident, text, i) + tail
  {
    hide NextToken, Redacted, OpensDollar;
    var u := text[i..] + rest;
    WrongIsMasked(f, text, rest, i);
    RedactedNext(FlagAt(f, text, i), u);
    assert From(f, text, rest, i)[0] == '*';
    assert (NumbersMasked(ident, text, i) + tail)[0] == text[i];
  }

  /** Both write x for the n characters from i on. */
  ghost predicate StepsAlike(f: bool, ident: bool, text: string, rest: string, i: nat, n: nat, x: string)
    requires i <= |text|
  {
    && 0 < n && i + n <= |text| && NotInParameter(text, i + n)
    && From(f, text, rest, i) == x + From(f, text, rest, i + n)
    && NumbersMasked(ident, text, i) == x + NumbersMasked(ident, text, i + n)
    && forall k :: i <= k < i + n ==> !Misread(f, text, rest, k)
  }

  lemma FromNext(f: bool, text: string, rest: string, i: nat)
    requires i < |text|
    ensures var u, flag := text[i..] + rest, FlagAt(f, text, i);
            var n := Length(NextToken(flag, u));
            i + n <= |text| ==>
              From(f, text, rest, i) == Image(NextToken(flag, u), u) + From(f, text, rest, i + n)
  {
    hide NextToken, Redacted;
    var u, flag := text[i..] + rest, FlagAt(f, text, i);
    var n := Length(NextToken(flag, u));
    RedactedNext(flag, u);
    if i + n <= |text| {
      assert Rest(flag, u) == text[i + n..] + rest;
      assert BeforeRest(flag, u) == FlagAt(f, text, i + n);
    }
  }

  lemma VerbatimStep(f: bool, ident: bool, text: string, rest: string, i: nat)
    requires i < |text| && !Misread(f, text, rest, i)
    requires NextToken(FlagAt(f, text, i), text[i..] + rest).Verbatim? && NotInParameter(text, i + 1)
    requires IsDigit(text[i]) ==> IdentifierBefore(ident, text, i)
    ensures StepsAlike(f, ident, text, rest, i, 1, [text[i]])
  {
    hide NextToken, Redacted, Misread;
    FromNext(f, text, rest, i);
    AtPosition(text, rest, i);
  }

  lemma NumberStep(f: bool, ident: bool, text: string, rest: string, i: nat)
    requires i < |text| && !Misread(f, text, rest, i) && NumberStops(text, rest)
    requires IsDigit(text[i]) && !IdentifierBefore(ident, text, i) && (i == 0 ==> f == ident)
    ensures StepsAlike(f, ident, text, rest, i, NumericLength(text[i..]), MASK)
  {
    hide NumericLength, Redacted, Misread, NumbersMasked;
    var u, n := text[i..] + rest, NumericLength(text[i..]);
    AtPosition(text, rest, i);
    NumberInStretch(text[i..], rest);
    assert NextToken(FlagAt(f, text, i), u) == Masked(n);
    FromNext(f, text, rest, i);
    NumberCharacter(text[i..], n - 1);
    NumberIsMaskedFrom(ident, text, i);
    forall k | i <= k < i + n
      ensures !Misread(f, text, rest, k)
    {
      NothingInNumber(f, text, rest, i, k);
    }
  }

  lemma NumberIsMaskedFrom(ident: bool, text: string, i: nat)
    requires i < |text| && IsDigit(text[i]) && !IdentifierBefore(ident, text, i)
    ensures NumbersMasked(ident, text, i) == MASK + NumbersMasked(ident, text, i + NumericLength(text[i..]))
  {
    hide NumericLength, LongestNumber, IdentifierBefore, IsNumber;
    NumericIsLongest(text[i..]);
    assert IsDecimalDigit(text[i]) && |text[i..]| == |text| - i;
  }

  lemma CharacterIsKept(ident: bool, text: string, i: nat)
    requires i < |text| && (IsDigit(text[i]) ==> IdentifierBefore(ident, text, i))
    ensures NumbersMasked(ident, text, i) == [text[i]] + NumbersMasked(ident, text, i + 1)
  {
  }

  lemma {:induction false} DigitsAreKept(ident: bool, text: string, i: nat, n: nat)
    requires i + n <= |text| && IdentifierBefore(ident, text, i) && forall k :: i <= k < i + n ==> IsDigit(text[k])
    ensures NumbersMasked(ident, text, i) == text[i..i + n] + NumbersMasked(ident, text, i + n)
    decreases n
  {
    hide NumbersMasked;
    if n == 0 {
      assert text[i..i] == "";
    } else {
      CharacterIsKept(ident, text, i);
      DigitsAreKept(ident, text, i + 1, n - 1);
      assert text[i..i + n] == [text[i]] + text[i + 1..i + n];
    }
  }

  /** How many digits follow the dollar sign at i. */
  lemma ParameterToken(f: bool, text: string, rest: string, i: nat) returns (m: nat)
    requires i < |text| && text[i] == '$' && StartsWithDigit(text[i + 1..] + rest) && NumberStops(text, rest)
    ensures i + 1 + m <= |text| && NextToken(FlagAt(f, text, i), text[i..] + rest) == Placeholder(1 + m)
    ensures 0 < m && forall k :: i + 1 <= k < i + 1 + m ==> IsDigit(text[k])
  {
    hide OpensDollar, NumericLength, DollarQuoteLength;
    AtPosition(text, rest, i);
    RunStops(IsDigit, text[i + 1..], rest);
    m := Run(IsDigit, text[i + 1..]);
    assert forall k :: i + 1 <= k < i + 1 + m ==> text[k] == text[i + 1..][k - i - 1];
  }

  lemma ParameterStep(f: bool, ident: bool, text: string, rest: string, i: nat) returns (n: nat)
    requires i < |text| && text[i] == '$' && StartsWithDigit(text[i + 1..] + rest) && NumberStops(text, rest)
    ensures n <= |text| - i && StepsAlike(f, ident, text, rest, i, n, text[i..i + n])
  {
    hide Redacted, NextToken, OpensDollar, NumericLength, From, NumbersMasked;
    var m := ParameterToken(f, text, rest, i);
    n := 1 + m;
    FromNext(f, text, rest, i);
    FrontOf(text, rest, i, n);
    ParameterIsKept(ident, text, i, m);
  }

  lemma ParameterIsKept(ident: bool, text: string, i: nat, m: nat)
    requires i + 1 + m <= |text| && text[i] == '$' && forall k :: i + 1 <= k < i + 1 + m ==> IsDigit(text[k])
    ensures NumbersMasked(ident, text, i) == text[i..i + 1 + m] + NumbersMasked(ident, text, i + 1 + m)
  {
    hide NumbersMasked;
    CharacterIsKept(ident, text, i);
    DigitsAreKept(ident, text, i + 1, m);
    assert text[i..i + 1 + m] == [text[i]] + text[i + 1..i + 1 + m];
  }

  lemma FrontOf(text: string, rest: string, i: nat, n: nat)
    requires i + n <= |text|
    ensures (text[i..] + rest)[..n] == text[i..i + n]
  {
  }

  lemma StepRight(f: bool, ident: bool, text: string, rest: string, i: nat) returns (n: nat, x: string)
    requires i < |text| && !Wrong(f, text, rest, i) && NotInParameter(text, i) && NumberStops(text, rest)
    requires i == 0 ==> f == ident
    ensures StepsAlike(f, ident, text, rest, i, n, x)
  {
    hide Redacted, StepsAlike, From, NumbersMasked;
    if IsDigit(text[i]) && !IdentifierBefore(ident, text, i) {
      NumberStep(f, ident, text, rest, i);
      n, x := NumericLength(text[i..]), MASK;
    } else if text[i] == '$' && StartsWithDigit(text[i + 1..] + rest) {
      n := ParameterStep(f, ident, text, rest, i);
      x := text[i..i + n];
    } else {
      KeptIsVerbatim(f, ident, text, rest, i);
      VerbatimStep(f, ident, text, rest, i);
      n, x := 1, [text[i]];
    }
  }

  lemma KeptIsVerbatim(f: bool, ident: bool, text: string, rest: string, i: nat)
    requires i < |text| && !Wrong(f, text, rest, i) && NotInParameter(text, i) && (i == 0 ==> f == ident)
    requires IsDigit(text[i]) ==> IdentifierBefore(ident, text, i)
    requires text[i] == '$' ==> !StartsWithDigit(text[i + 1..] + rest)
    ensures NextToken(FlagAt(f, text, i), text[i..] + rest).Verbatim? && NotInParameter(text, i + 1)
  {
    hide NumericLength, DollarQuoteLength, QuotedTail, OpensDollar;
    var u := text[i..] + rest;
    AtPosition(text, rest, i);
    if text[i] == '$' {
      DollarQuoteNeedsOpening(u);
      assert PlaceholderLength(u) == 0;
    }
  }

  predicate FitsFrom(f: bool, text: string, rest: string, i: nat)
  {
    forall k :: i <= k < |text| ==> !Misread(f, text, rest, k)
  }

  /** If nothing in a stretch is misread the scanner writes what it should and goes on behind it; otherwise it writes
      something else, whatever should follow. */
  lemma {:induction false} StretchIff(f: bool, ident: bool, text: string, rest: string, i: nat, tail: string)
    requires i <= |text| && NotInParameter(text, i) && NumberStops(text, rest) && (i == 0 ==> f == ident)
    ensures FitsFrom(f, text, rest, i) ==>
              From(f, text, rest, i) == NumbersMasked(ident, text, i) + From(f, text, rest, |text|)
    ensures !FitsFrom(f, text, rest, i) ==> From(f, text, rest, i) != NumbersMasked(ident, text, i) + tail
    decreases |text| - i
  {
    hide From, NumbersMasked, Redacted, Misread, Wrong, StepsAlike;
    if i == |text| {
      NothingToMask(ident, text);
    } else if Wrong(f, text, rest, i) {
      WrongDiffers(f, ident, text, rest, i, tail);
      WrongIsMisread(f, text, rest, i);
    } else {
      var n, x := StepRight(f, ident, text, rest, i);
      StepGoesOn(f, ident, text, rest, i, n, x);
      StretchIff(f, ident, text, rest, i + n, tail);
      WriteInFront(x, From(f, text, rest, i + n), NumbersMasked(ident, text, i + n), From(f, text, rest, |text|), tail);
    }
  }

  lemma NothingToMask(ident: bool, text: string)
    ensures NumbersMasked(ident, text, |text|) == ""
  {
  }

  lemma StepGoesOn(f: bool, ident: bool, text: string, rest: string, i: nat, n: nat, x: string)
    requires i <= |text| && StepsAlike(f, ident, text, rest, i, n, x)
    ensures 0 < n && i + n <= |text| && NotInParameter(text, i + n)
    ensures From(f, text, rest, i) == x + From(f, text, rest, i + n)
    ensures NumbersMasked(ident, text, i) == x + NumbersMasked(ident, text, i + n)
    ensures FitsFrom(f, text, rest, i) <==> FitsFrom(f, text, rest, i + n)
  {
    hide From, NumbersMasked, Misread;
  }

  lemma WriteInFront(x: string, written: string, y: string, end: string, tail: string)
    ensures written == y + end ==> x + written == (x + y) + end
    ensures written != y + tail ==> x + written != (x + y) + tail
  {
    Regroup(x, y, end);
    Regroup(x, y, tail);
    SamePrefixEqual(x, written, y + tail);
  }

  lemma WrongIsMisread(f: bool, text: string, rest: string, i: nat)
    requires i < |text| && Wrong(f, text, rest, i)
    ensures !FitsFrom(f, text, rest, i)
  {
    if !Misread(f, text, rest, i) {
      assert Misread(f, text, rest, i + 1);
    }
  }

  lemma WholeStretch(f: bool, text: string, rest: string, tail: string)
    requires text != "" && NumberStops(text, rest)
    ensures Fits(f, Stretch(text), rest) ==>
              Redacted(f, text + rest) == NumbersMasked(f, text, 0) + Redacted(FlagAt(f, text, |text|), rest)
    ensures !Fits(f, Stretch(text), rest) ==> Redacted(f, text + rest) != NumbersMasked(f, text, 0) + tail
  {
    hide Redacted, Misread, NumbersMasked;
    StretchIff(f, f, text, rest, 0, tail);
    assert text[0..] == text && text[|text|..] + rest == rest;
  }

  // ----- Literals

  lemma {:induction false} PassesContent(c: string, z: string)
    requires EscapeContent(c) && !HidesQuote(c)
    ensures QuotedTail(c + z) == |c| + QuotedTail(z)
  {
    var t := c + z;
    if c == "" {
      assert t == z;
    } else {
      assert t[1..] == c[1..] + z;
      if c[0] == '\\' || c[0] == '\'' {
        assert t[2..] == t[1..][1..] == c[2..] + z;
        PassesContent(c[2..], z);
      } else {
        PassesContent(c[1..], z);
      }
    }
  }

  lemma CutContentNeverEnds(c: string)
    requires CutEscapeContent(c) && !HidesQuote(c)
    ensures QuotedTail(c) == |c|
  {
    if EscapeContent(c) {
      PassesContent(c, "");
      assert c + "" == c;
    } else {
      var d := c[..|c| - 1];
      assert c == d + "\\";
      if HidesQuote(d) {
        HidingGrows(d, "\\");
      }
      PassesContent(d, "\\");
    }
  }

  lemma {:induction false} HidingGrows(d: string, z: string)
    requires EscapeContent(d) && HidesQuote(d)
    ensures HidesQuote(d + z)
  {
    var t := d + z;
    assert t[1..] == d[1..] + z && (|d| > 1 ==> t[2..] == d[2..] + z);
    if d[0] == '\\' {
      if d[1] != '\'' {
        HidingGrows(d[2..], z);
      }
    } else if d[0] == '\'' {
      HidingGrows(d[2..], z);
    } else {
      HidingGrows(d[1..], z);
    }
  }

  /** A tag the scanner does not know opens nothing for it. */
  lemma UnknownTagIsKept(f: bool, tag: string, body: string)
    requires IsTag(tag) && !IsPlainTag(tag)
    ensures NextToken(f, Delimiter(tag) + body).Verbatim?
  {
    hide IndexOf;
    var t := Delimiter(tag) + body;
    assert t[1..] == tag + ("$" + body);
    var k :| 0 <= k < |tag| && !IsIdentChar(tag[k]);
    assert t[1..][k] == tag[k];
    var r := Run(IsIdentChar, t[1..]);
    assert r <= k && t[r + 1] == t[1..][r] == tag[r];
    assert t[1] == tag[0];
  }

  lemma UnknownTagDiffers(f: bool, tag: string, body: string, tail: string)
    requires IsTag(tag) && !IsPlainTag(tag)
    ensures Redacted(f, Delimiter(tag) + body) != MASK + tail
  {
    hide NextToken, Redacted;
    var t := Delimiter(tag) + body;
    UnknownTagIsKept(f, tag, body);
    RedactedNext(f, t);
    assert Redacted(f, t)[0] == '$';
  }

  lemma ClosedIsMasked(f: bool, ident: bool, l: Lexeme, rest: string)
    requires Lexical(ident, l, rest) && HidesNothing(l) && (f ==> ident) && Fits(f, l, rest)
    requires l.Plain? || l.Bits? || l.Escape? || l.Dollar?
    ensures Redacted(f, Before(l, rest)) == MASK + Redacted(false, rest)
  {
    hide NextToken, Redacted, EscapeContent, HidesQuote, Doubled, IndexOf;
    match l {
      case Plain(value) => LiteralIsMasked(f, value, rest);
      case Bits(prefix, value) => PrefixedLiteralIsMasked(prefix, value, rest);
      case Escape(e, content) => FirstPartIsMasked(e, content, rest);
      case Dollar(tag, content) => DollarLiteralIsMasked(f, tag, content, rest);
    }
  }

  lemma CutIsMasked(f: bool, ident: bool, l: Lexeme)
    requires Lexical(ident, l, "") && HidesNothing(l) && (f ==> ident) && Fits(f, l, "") && IsCut(l)
    ensures Redacted(f, Before(l, "")) == MASK
  {
    hide NextToken, Redacted, CutEscapeContent, HidesQuote, Doubled, IndexOf, QuotedTail;
    match l {
      case CutPlain(value) =>
        DoubledNeverEnds(value);
        CutPlainIsMasked(f, Doubled(value));
      case CutBits(prefix, value) =>
        DoubledNeverEnds(value);
        CutPrefixedIsMasked(prefix, Doubled(value));
      case CutEscape(e, content) =>
        CutContentNeverEnds(content);
        CutPrefixedIsMasked(e, content);
      case CutDollar(tag, content) => CutDollarIsMasked(f, tag, content);
    }
  }

  // ----- Whole queries

  /** The scanner deals with a lexeme as it should and goes on behind it, or writes something else, whatever should
      follow. */
  lemma LexemeIff(f: bool, ident: bool, l: Lexeme, rest: string, tail: string)
    requires Lexical(ident, l, rest) && HidesNothing(l) && (f ==> ident) && (IsCut(l) ==> rest == "")
    requires l.Stretch? ==> f == ident && NumberStops(l.text, rest)
    ensures Fits(f, l, rest) ==>
              Redacted(f, Before(l, rest)) == Output(ident, l) + Redacted(EndsIdent(f, l), rest)
    ensures !Fits(f, l, rest) ==> Redacted(f, Before(l, rest)) != Output(ident, l) + tail
  {
    hide NextToken, Redacted, EscapeContent, HidesQuote, Doubled, IndexOf, NumbersMasked, Misread, QuotedTail;
    if l.Stretch? {
      WholeStretch(f, l.text, rest, tail);
    } else if l.Parameter? {
      PlaceholderIsCopied(f, "$" + l.digits, rest);
    } else if !Fits(f, l, rest) {
      UnknownTagDiffers(f, l.tag, if l.Dollar? then l.content + (Delimiter(l.tag) + rest) else l.content, tail);
    } else if IsCut(l) {
      CutIsMasked(f, ident, l);
      NothingLeft(false);
    } else {
      ClosedIsMasked(f, ident, l, rest);
    }
  }

  lemma NothingLeft(f: bool)
    ensures Redacted(f, "") == ""
  {
  }

  lemma WhatFollowsStretch(ident: bool, text: string, ls: seq<Lexeme>)
    requires text != "" && Lexed(IdentifierBefore(ident, text, |text|), ls) && (ls != [] ==> !ls[0].Stretch?)
    ensures NumberStops(text, Query(ls))
  {
    hide EscapeContent, Doubled, IndexOf, CutEscapeContent;
  }

  /** For every query as PostgreSQL reads it, the last literal cut short or not, whose escape strings hide no quote:
      the redacted query is the query with every literal and every number masked and nothing else touched if and only
      if no quote stands between the literals, no dollar sign there opens a dollar quote, no digit there stands
      directly behind a letter above ASCII, no such letter or a dollar sign stands in front of an e, x or b with a
      string behind it, and all dollar tags are ASCII. */
  lemma {:induction false} FaithfulIff(f: bool, ident: bool, ls: seq<Lexeme>)
    requires Lexed(ident, ls) && (f ==> ident) && (ls != [] && ls[0].Stretch? ==> f == ident)
    requires forall l :: l in ls ==> HidesNothing(l)
    ensures Redacted(f, Query(ls)) == Faithful(ident, ls) <==> AllFit(f, ls)
    decreases |ls|
  {
    hide Redacted, Lexical, Before, Fits, Output;
    if ls == [] {
      NothingLeft(f);
    } else {
      var l, more := ls[0], ls[1..];
      var rest, tail := Query(more), Faithful(IdentifierBehind(ident, l), more);
      if l.Stretch? {
        StretchIsNotEmpty(ident, l, rest);
        WhatFollowsStretch(ident, l.text, more);
      }
      LexemeIff(f, ident, l, rest, tail);
      if Fits(f, l, rest) {
        FlagsStay(f, ident, l, rest);
        FaithfulIff(EndsIdent(f, l), IdentifierBehind(ident, l), more);
        SamePrefixEqual(Output(ident, l), Redacted(EndsIdent(f, l), rest), tail);
      }
    }
  }

  lemma StretchIsNotEmpty(ident: bool, l: Lexeme, rest: string)
    requires Lexical(ident, l, rest) && l.Stretch?
    ensures l.text != ""
  {
  }

  lemma FlagsStay(f: bool, ident: bool, l: Lexeme, rest: string)
    requires f ==> ident
    ensures EndsIdent(f, l) ==> IdentifierBehind(ident, l)
    ensures !l.Stretch? ==> EndsIdent(f, l) == IdentifierBehind(ident, l)
  {
  }

  /** The same from the start of a query on. */
  lemma EveryLiteralIsMaskedIff(ls: seq<Lexeme>)
    requires Lexed(false, ls) && forall l :: l in ls ==> HidesNothing(l)
    ensures Redact(Query(ls)) == Faithful(false, ls) <==> AllFit(false, ls)
  {
    hide Redacted, Lexed, Faithful, Query, AllFit;
    FaithfulIff(false, false, ls);
  }

  // ----- What goes wrong otherwise

  /** An apostrophe in a quoted identifier sets the scanner off: of "o'" = 'secret', the literal is stored, and the
      text in front of it is masked instead. */
  lemma ApostropheInIdentifierLeaks()
    ensures Redact("\"o'\" = 'secret'") == "\"o***secret***"
  {
    hide Redacted;
    TextIsMaskedInstead();
    WordsStretch(false, "\"o", "'\" = 'secret'");
    assert "\"o'\" = 'secret'" == "\"o" + "'\" = 'secret'";
  }

  lemma TextIsMaskedInstead()
    ensures Redacted(true, "'\" = 'secret'") == "***secret***"
  {
    hide Redacted, Doubled;
    NothingDoubled("\" = ");
    LiteralIsMasked(true, "\" = ", "secret'");
    SecretIsStored();
    assert "'\" = 'secret'" == "'" + ("\" = " + ("'" + "secret'"));
  }

  lemma SecretIsStored()
    ensures Redacted(false, "secret'") == "secret***"
  {
    hide Redacted, QuotedTail;
    WordsStretch(false, "secret", "'");
    EmptyNeverEnds();
    CutPlainIsMasked(true, "");
    assert "'" + "" == "'" && "secret" + "'" == "secret'";
  }

  lemma EmptyNeverEnds()
    ensures QuotedTail("") == 0
  {
  }

  /** Words in front of a literal are copied unless they end in a letter that takes its quote along. */
  lemma WordsStretch(f: bool, text: string, rest: string)
    requires Quiet(text) && text != "" && rest != "" && rest[0] == '\'' && IsIdentChar(text[|text| - 1])
    requires |text| > 1 && (IsStringPrefix(text[|text| - 1]) ==> IsIdentChar(text[|text| - 2]))
    ensures Redacted(f, text + rest) == text + Redacted(true, rest)
  {
    hide NextToken, Redacted, NumbersMasked;
    WholeStretch(f, text, rest, "");
    NoNumbers(f, text, 0);
    assert text[0..] == text;
  }

  lemma {:induction false} NoNumbers(ident: bool, text: string, i: nat)
    requires i <= |text| && Quiet(text)
    ensures NumbersMasked(ident, text, i) == text[i..]
    decreases |text| - i
  {
    if i < |text| {
      NoNumbers(ident, text, i + 1);
    }
  }

  lemma {:induction false} NothingDoubled(u: string)
    requires Quiet(u)
    ensures Doubled(u) == u
  {
    if u != "" {
      NothingDoubled(u[1..]);
      assert u == [u[0]] + u[1..];
    }
  }

  /** Of an identifier that is a letter above ASCII and a digit, the digit is masked. */
  lemma DigitBehindAccentIsMasked()
    ensures Redact("\U{00E9}1") == "\U{00E9}***" && Faithful(false, [Stretch("\U{00E9}1")]) == "\U{00E9}1"
  {
    hide Redacted;
    var text := "\U{00E9}1";
    RedactedNext(false, text);
    assert Rest(false, text) == "1" && !BeforeRest(false, text);
    OneIsMasked();
    assert NumbersMasked(false, text, 2) == "" && NumbersMasked(false, text, 1) == "1";
  }

  lemma OneIsMasked()
    ensures Redacted(false, "1") == MASK
  {
    assert "1"[1..] == "";
    assert Run(InDecimalNumber, "1") == 1;
  }
}
