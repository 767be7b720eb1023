/** E'...' strings (sections 4.1.2.1 and 4.1.2.2 of the PostgreSQL 16 documentation) under the scanner of
    go/internal/infrastructure/history/redact.go: what it leaves of them, and exactly when it masks them. */
module EscapeStrings {
  import opened Redaction
  import opened RedactionProperties
  import opened ScannerPositions
  import opened LiteralContents

  // ----- What PostgreSQL reads as an escape string

  /** Between the quotes a backslash takes the next character with it, a quote too, and other quotes come doubled. */
  predicate EscapeContent(c: string)
  {
    if c == "" then true
    else if c[0] == '\\' then |c| > 1 && EscapeContent(c[2..])
    else if c[0] == '\'' then |c| > 1 && c[1] == '\'' && EscapeContent(c[2..])
    else EscapeContent(c[1..])
  }

  /** A backslash escapes a quote: it is not itself escaped by the backslash before it. */
  predicate HidesQuote(c: string)
  {
    if c == "" then false
    else if c[0] == '\\' then |c| > 1 && (c[1] == '\'' || HidesQuote(c[2..]))
    else if c[0] == '\'' then |c| > 1 && HidesQuote(c[2..])
    else HidesQuote(c[1..])
  }

  predicate IsNewline(c: char)
  {
    c == '\n' || c == '\r'
  }

  predicate IsSpace(c: char)
  {
    c == ' ' || c == '\t' || c == '\U{000B}' || c == '\U{000C}' || IsNewline(c)
  }

  /** How long a text is up to its first line end. */
  function LineLength(t: string): (n: nat)
    ensures n <= |t| && (n < |t| ==> IsNewline(t[n]))
  {
    if t == "" || IsNewline(t[0]) then 0 else 1 + LineLength(t[1..])
  }

  /** White space, and comments that run to the end of a line. */
  predicate Blank(g: string)
    decreases |g|
  {
    if g == "" then true
    else if IsSpace(g[0]) then Blank(g[1..])
    else |g| > 1 && g[0] == g[1] == '-' && LineLength(g) < |g| && Blank(g[LineLength(g) + 1..])
  }

  /** Nothing a token of the scanner could start at. */
  predicate Quiet(w: string)
  {
    forall k :: 0 <= k < |w| ==> w[k] != '\'' && w[k] != '$' && !IsDigit(w[k])
  }

  /** What may stand between two parts of one literal: white space with a line end in it. Comments are included as long
      as they are quiet. */
  predicate IsGap(g: string)
  {
    Blank(g) && Quiet(g) && exists k :: 0 <= k < |g| && IsNewline(g[k])
  }

  /** A literal goes on behind a gap; E stands in front of its first part only. */
  datatype Part = Part(gap: string, content: string)

  predicate IsLiteral(e: char, first: string, parts: seq<Part>)
  {
    && (e == 'e' || e == 'E') && EscapeContent(first)
    && forall part :: part in parts ==> IsGap(part.gap) && EscapeContent(part.content)
  }

  function Render(e: char, first: string, parts: seq<Part>): string
  {
    if parts == [] then [e] + ("'" + (first + "'"))
    else
      var last := parts[|parts| - 1];
      Render(e, first, parts[..|parts| - 1]) + (last.gap + ("'" + (last.content + "'")))
  }

  /** What a faithful mask leaves of the literal: a mask for each part, and the gaps. */
  function Traces(parts: seq<Part>): string
  {
    if parts == [] then MASK
    else Traces(parts[..|parts| - 1]) + (parts[|parts| - 1].gap + MASK)
  }

  predicate HidesSomeQuote(first: string, parts: seq<Part>)
  {
    HidesQuote(first) || exists part :: part in parts && HidesQuote(part.content)
  }

  // ----- What has been written

  predicate EndsInSpace(w: string)
  {
    w != "" && IsSpace(w[|w| - 1])
  }

  lemma EndOfSum(a: string, b: string)
    requires b != ""
    ensures EndsInSpace(a + b) <==> EndsInSpace(b)
  {
  }

  /** Where the last character written is a space, the last one scanned is. */
  lemma {:induction false} SpaceComesFromSpace(f: bool, t: string, k: nat)
    requires StandsAt(f, t, k) && EndsInSpace(Written(f, t, k))
    ensures 0 < k <= |t| && IsSpace(t[k - 1])
    decreases k
  {
    hide NextToken, Redacted, Image;
    var token, n := NextToken(f, t), Length(NextToken(f, t));
    StandsInside(f, t, k);
    if n == k {
      ImageEndsInSpace(f, t);
    } else {
      WrittenSomething(BeforeRest(f, t), Rest(f, t), k - n);
      EndOfSum(Image(token, t), Written(BeforeRest(f, t), Rest(f, t), k - n));
      SpaceComesFromSpace(BeforeRest(f, t), Rest(f, t), k - n);
    }
  }

  lemma ImageEndsInSpace(f: bool, t: string)
    requires t != "" && EndsInSpace(Image(NextToken(f, t), t))
    ensures NextToken(f, t).Verbatim? && IsSpace(t[0])
  {
  }

  // ----- Gaps are copied

  lemma {:induction false} BlankEndsInSpace(g: string)
    requires Blank(g) && g != ""
    ensures EndsInSpace(g)
    decreases |g|
  {
    var n := if IsSpace(g[0]) then 1 else LineLength(g) + 1;
    if n < |g| {
      BlankEndsInSpace(g[n..]);
    }
  }

  lemma QuietToken(f: bool, w: string, z: string)
    requires Quiet(w) && EndsInSpace(w)
    ensures w + z != "" && NextToken(f, w + z) == Verbatim
  {
    assert (w + z)[0] == w[0] && (|w| > 1 ==> (w + z)[1] == w[1]);
  }

  lemma {:induction false} QuietIsCopied(f: bool, w: string, z: string)
    requires Quiet(w) && EndsInSpace(w)
    ensures StandsAt(f, w + z, |w|) && Written(f, w + z, |w|) == w
    decreases |w|
  {
    hide NextToken;
    var t, flag := w + z, BeforeRest(f, w + z);
    QuietToken(f, w, z);
    assert Rest(f, t) == w[1..] + z && t[..1] == w[..1] && w == w[..1] + w[1..];
    if |w| > 1 {
      QuietIsCopied(flag, w[1..], z);
    }
  }

  // ----- Where the scanner ends a part

  /** Entered one quote too late or too early, the scanner does not end a part at its closing quote. */
  lemma {:induction false} MissesTheEnd(c: string, v: string)
    requires EscapeContent(c) && v != "" && Follows(v)
    ensures QuotedTail("'" + (c + ("'" + v))) != |c| + 2
  {
    var t := "'" + (c + ("'" + v));
    if c == "" {
      assert t[2..] == v;
    } else if c[0] == '\'' {
      assert t[2..] == "'" + (c[2..] + ("'" + v));
      MissesTheEnd(c[2..], v);
    }
  }

  lemma {:induction false} EndsIfNothingHidden(c: string, v: string)
    requires EscapeContent(c) && Follows(v) && !HidesQuote(c)
    ensures QuotedTail(c + ("'" + v)) == |c| + 1
  {
    var t := c + ("'" + v);
    if c != "" {
      assert t[1..] == c[1..] + ("'" + v);
      if c[0] == '\\' || c[0] == '\'' {
        assert t[2..] == t[1..][1..] == c[2..] + ("'" + v);
        EndsIfNothingHidden(c[2..], v);
      } else {
        EndsIfNothingHidden(c[1..], v);
      }
    }
  }

  lemma {:induction false} HiddenQuoteMovesTheEnd(c: string, v: string)
    requires EscapeContent(c) && v != "" && Follows(v) && HidesQuote(c)
    ensures QuotedTail(c + ("'" + v)) != |c| + 1
  {
    var t := c + ("'" + v);
    assert t[1..] == c[1..] + ("'" + v);
    if c[0] == '\\' && c[1] == '\'' {
      assert t[1..] == "'" + (c[2..] + ("'" + v));
      MissesTheEnd(c[2..], v);
    } else if c[0] == '\\' || c[0] == '\'' {
      assert t[2..] == t[1..][1..] == c[2..] + ("'" + v);
      HiddenQuoteMovesTheEnd(c[2..], v);
    } else {
      HiddenQuoteMovesTheEnd(c[1..], v);
    }
  }

  // ----- Nothing hidden: every part is masked

  lemma FirstPartIsMasked(e: char, c: string, s: string)
    requires (e == 'e' || e == 'E') && EscapeContent(c) && !HidesQuote(c) && Follows(s)
    ensures Redacted(false, [e] + ("'" + (c + ("'" + s)))) == MASK + Redacted(false, s)
  {
    hide NextToken, Redacted;
    var content := c + ("'" + s);
    EndsIfNothingHidden(c, s);
    assert content[|c| + 1..] == s && content[|c|] == '\'';
    PrefixedIsMasked(e, content, s);
  }

  lemma LaterPartIsMasked(gap: string, c: string, s: string)
    requires IsGap(gap) && EscapeContent(c) && !HidesQuote(c) && Follows(s)
    ensures Redacted(false, gap + ("'" + (c + ("'" + s)))) == gap + (MASK + Redacted(false, s))
  {
    hide NextToken, Redacted;
    var z := "'" + (c + ("'" + s));
    BlankEndsInSpace(gap);
    QuietIsCopied(false, gap, z);
    RedactedSplit(false, gap + z, |gap|);
    assert (gap + z)[|gap|..] == z;
    EndsIfNothingHidden(c, s);
    QuotedIsMasked(c, s);
  }

  lemma LiteralRegroup(a: string, gap: string, c: string, s: string)
    ensures (a + (gap + ("'" + (c + "'")))) + s == a + (gap + ("'" + (c + ("'" + s))))
  {
  }

  lemma TraceRegroup(a: string, gap: string, mask: string, s: string)
    ensures (a + (gap + mask)) + s == a + (gap + (mask + s))
  {
  }

  lemma {:induction false} PartsAreMasked(e: char, first: string, parts: seq<Part>, s: string)
    requires IsLiteral(e, first, parts) && !HidesSomeQuote(first, parts) && Follows(s)
    ensures Redacted(false, Render(e, first, parts) + s) == Traces(parts) + Redacted(false, s)
    decreases |parts|
  {
    hide NextToken, Redacted;
    if parts == [] {
      FirstPartIsMasked(e, first, s);
      assert Render(e, first, parts) + s == [e] + ("'" + (first + ("'" + s)));
    } else {
      var init, last := parts[..|parts| - 1], parts[|parts| - 1];
      assert last in parts && forall part :: part in init ==> part in parts;
      var more := last.gap + ("'" + (last.content + ("'" + s)));
      BlankEndsInSpace(last.gap);
      PartsAreMasked(e, first, init, more);
      LaterPartIsMasked(last.gap, last.content, s);
      LiteralRegroup(Render(e, first, init), last.gap, last.content, s);
      TraceRegroup(Traces(init), last.gap, MASK, Redacted(false, s));
    }
  }

  // ----- Something hidden: the masks do not fit

  /** A number holds no quote. */
  lemma NumberHasNoQuote(t: string, k: nat)
    requires t != "" && IsDigit(t[0]) && k < NumericLength(t)
    ensures t[k] != '\''
  {
    if t[0] == '0' && |t| > 1 && IsRadixPrefix(t[1]) {
      assert k >= 2 ==> t[k] == t[2..][k - 2];
    } else {
      var j := Run(InDecimalNumber, t);
      if k > j {
        var d := ExponentDigits(t, j);
        assert k >= d ==> t[k] == t[d..][k - d];
      }
    }
  }

  /** A token that takes in a quote is a string literal, and ends with a quote or a dollar sign unless it takes
      everything. */
  lemma TokenOverQuote(f: bool, t: string, p: nat)
    requires p < |t| && t[p] == '\'' && p < Length(NextToken(f, t))
    ensures var n := Length(NextToken(f, t));
            NextToken(f, t).Masked? && (n < |t| ==> t[n - 1] == '\'' || t[n - 1] == '$')
  {
    if t[0] == '$' {
      assert t[1..] != "" ==> forall k :: 0 < k < |t| ==> t[k] == t[1..][k - 1];
      DollarQuoteEnd(t);
    } else if t[0] == '\'' {
      QuotedTailEnd(t[1..]);
    } else if IsStringPrefix(t[0]) && !f && |t| > 1 && t[1] == '\'' {
      QuotedTailEnd(t[2..]);
    } else if IsDigit(t[0]) && !f {
      NumberHasNoQuote(t, p);
    }
  }

  /** The quote at o opens a string literal of the scanner that ends just behind position `end`. */
  predicate OpensLiteral(t: string, o: nat, end: nat)
  {
    o < end < |t| && t[o] == '\'' && QuotedTail(t[o + 1..]) == end - o
  }

  /** A masked token that ends with a quote opens with one, right away or behind a prefix letter. */
  lemma MaskedBetweenQuotes(f: bool, t: string, n: nat) returns (o: nat)
    requires t != "" && NextToken(f, t) == Masked(n) && n < |t| && t[n - 1] == '\''
    ensures OpensLiteral(t, o, n - 1) && (o == 0 || (o == 1 && IsStringPrefix(t[0])))
  {
    o := 0;
    if t[0] == '$' {
      DollarQuoteEnd(t);
    } else if IsStringPrefix(t[0]) && !f && |t| > 1 && t[1] == '\'' {
      o := 1;
    } else if t[0] != '\'' {
      NumberHasNoQuote(t, n - 1);
    }
  }

  /** The characters from one position to another are quiet, and the last of them is a space. */
  predicate QuietStretch(t: string, from: nat, to: nat)
  {
    from < to <= |t| && Quiet(t[from..to]) && IsSpace(t[to - 1])
  }

  lemma QuietStretchIsCopied(f: bool, t: string, k: nat)
    requires QuietStretch(t, 0, k)
    ensures StandsAt(f, t, k) && Written(f, t, k) == t[..k]
  {
    hide NextToken, StandsAt, Written;
    QuietIsCopied(f, t[..k], t[k..]);
    assert t == t[..k] + t[k..];
  }

  lemma QuietRest(t: string, from: nat, to: nat, n: nat)
    requires QuietStretch(t, from, to) && n <= from
    ensures QuietStretch(t[n..], from - n, to - n) && t[n..][from - n..to - n] == t[from..to]
  {
    assert t[n..][from - n..to - n] == t[from..to];
  }

  lemma QuietInside(t: string, from: nat, to: nat)
    requires QuietStretch(t, from, to)
    ensures forall i :: from <= i < to ==> t[i] != '\'' && t[i] != '$'
  {
    assert forall i :: from <= i < to ==> t[i] == t[from..to][i - from];
  }

  /** The token at q is a mask that ends with the quote at p, and behind it only the quiet stretch is written. */
  ghost predicate IsLastLiteral(f: bool, t: string, p: nat, k: nat, q: nat)
    requires p < k <= |t|
  {
    && q <= p && StandsAt(f, t, q) && StandsAt(f, t, k)
    && Written(f, t, k) == Written(f, t, q) + (MASK + t[p + 1..k])
    && NextToken(FlagAt(f, t, q), t[q..]) == Masked(p + 1 - q)
  }

  lemma SliceOfRest(f: bool, t: string, from: nat, to: nat)
    requires t != "" && Length(NextToken(f, t)) <= from <= to <= |t|
    ensures var n := Length(NextToken(f, t)); to - n <= |Rest(f, t)| && Rest(f, t)[from - n..to - n] == t[from..to]
  {
    hide NextToken;
  }

  lemma LastLiteralInRest(f: bool, t: string, p: nat, k: nat, q: nat)
    requires p < k <= |t| && t != "" && Length(NextToken(f, t)) <= p
    requires |Rest(f, t)| == |t| - Length(NextToken(f, t))
    requires var n := Length(NextToken(f, t)); IsLastLiteral(BeforeRest(f, t), Rest(f, t), p - n, k - n, q)
    ensures IsLastLiteral(f, t, p, k, Length(NextToken(f, t)) + q)
  {
    hide NextToken, StandsAt, Written, Rest, BeforeRest, FlagAt, Image, Length;
    var n, last, rest := Length(NextToken(f, t)), BeforeRest(f, t), Rest(f, t);
    AfterToken(f, t, k);
    AfterToken(f, t, n + q);
    RestAt(f, t, n + q);
    SliceOfRest(f, t, p + 1, k);
    Regroup(Image(NextToken(f, t), t), Written(last, rest, q), MASK + t[p + 1..k]);
  }

  lemma LastLiteralIsFirst(f: bool, t: string, p: nat, k: nat)
    requires QuietStretch(t, p + 1, k) && NextToken(f, t) == Masked(p + 1) && StandsAt(f, t, k)
    ensures IsLastLiteral(f, t, p, k, 0)
  {
    hide NextToken, StandsAt, Written, Quiet;
    QuietRest(t, p + 1, k, p + 1);
    QuietStretchIsCopied(BeforeRest(f, t), Rest(f, t), k - p - 1);
    AfterToken(f, t, k);
    StandsAtStart(f, t);
  }

  /** The last quote before a quiet stretch at whose end the scanner stands closes the last masked token. */
  lemma {:induction false} LastLiteral(f: bool, t: string, p: nat, k: nat) returns (q: nat)
    requires p < |t| && t[p] == '\'' && QuietStretch(t, p + 1, k)
    requires StandsAt(f, t, k) && EndsInSpace(Written(f, t, k))
    ensures IsLastLiteral(f, t, p, k, q)
    decreases p
  {
    hide NextToken, StandsAt, Written, Quiet, IsLastLiteral;
    var n, last, rest := Length(NextToken(f, t)), BeforeRest(f, t), Rest(f, t);
    StandsAtToken(f, t, k);
    AfterToken(f, t, k);
    if n <= p {
      QuietRest(t, p + 1, k, n);
      WrittenSomething(last, rest, k - n);
      EndOfSum(Image(NextToken(f, t), t), Written(last, rest, k - n));
      var q' := LastLiteral(last, rest, p - n, k - n);
      LastLiteralInRest(f, t, p, k, q');
      q := n + q';
    } else {
      LastTokenFits(f, t, p, k);
      LastLiteralIsFirst(f, t, p, k);
      q := 0;
    }
  }

  lemma MaskIsNotAll(f: bool, t: string, k: nat)
    requires StandsAt(f, t, k) && EndsInSpace(Written(f, t, k)) && t != "" && NextToken(f, t).Masked?
    ensures Length(NextToken(f, t)) != k
  {
    hide NextToken;
    var n := Length(NextToken(f, t));
    AfterToken(f, t, n);
    StandsAtStart(BeforeRest(f, t), Rest(f, t));
  }

  lemma LastTokenFits(f: bool, t: string, p: nat, k: nat)
    requires p < |t| && t[p] == '\'' && QuietStretch(t, p + 1, k)
    requires StandsAt(f, t, k) && EndsInSpace(Written(f, t, k)) && p < Length(NextToken(f, t))
    ensures NextToken(f, t) == Masked(p + 1)
  {
    hide NextToken, Written, StandsAt, Quiet;
    TokenOverQuote(f, t, p);
    StandsAtToken(f, t, k);
    StandsInside(f, t, k);
    MaskIsNotAll(f, t, k);
    QuietInside(t, p + 1, k);
  }

  /** In the middle of a literal, the scanner comes to a later quote as if it had started in front of it. */
  lemma {:induction false} PassesThrough(y: string, z: string)
    requires (y == "" || y[|y| - 1] != '\'') && QuotedTail(y + z) > |y|
    ensures QuotedTail(y + z) == |y| + QuotedTail(z)
  {
    if y == "" {
      assert y + z == z;
    } else {
      assert (y + z)[1..] == y[1..] + z;
      if y[0] != '\'' {
        PassesThrough(y[1..], z);
      } else {
        assert |y| > 1 && (y + z)[2..] == y[2..] + z;
        PassesThrough(y[2..], z);
      }
    }
  }

  /** A literal the scanner ends at a part's closing quote does not start before the part. */
  lemma OpensNotBefore(a: string, c: string, v: string, o: nat)
    requires EscapeContent(c) && v != "" && Follows(v) && EndsInSpace(a)
    requires OpensLiteral(a + ("'" + (c + ("'" + v))), o, |a| + |c| + 1)
    ensures o >= |a|
  {
    hide EscapeContent, QuotedTail;
    var t, z := a + ("'" + (c + ("'" + v))), "'" + (c + ("'" + v));
    if o < |a| {
      var y := a[o + 1..];
      assert t[o + 1..] == y + z && (y == "" || y[|y| - 1] == a[|a| - 1]);
      PassesThrough(y, z);
      MissesTheEnd(c, v);
    }
  }

  /** Every quote in the content is escaped by a backslash, the second of a pair, or the first of a pair. */
  lemma {:induction false} QuoteInContent(c: string, m: nat)
    requires EscapeContent(c) && m < |c| && c[m] == '\''
    ensures (m > 0 && (c[m - 1] == '\\' || c[m - 1] == '\''))
         || (m + 1 < |c| && c[m + 1] == '\'' && EscapeContent(c[m + 2..]))
  {
    if c[0] == '\\' || c[0] == '\'' {
      if m >= 2 {
        QuoteInContent(c[2..], m - 2);
        assert c[2..][m - 2..] == c[m..] && (m + 2 <= |c| ==> c[2..][m..] == c[m + 2..]);
      }
    } else {
      QuoteInContent(c[1..], m - 1);
      assert m + 2 <= |c| ==> c[1..][m + 1..] == c[m + 2..];
    }
  }

  /** Nor does it start inside the part, unless right behind a backslash or a quote. */
  lemma OpensNotInside(a: string, c: string, v: string, o: nat)
    requires EscapeContent(c) && v != "" && Follows(v) && o > |a|
    requires OpensLiteral(a + ("'" + (c + ("'" + v))), o, |a| + |c| + 1)
    ensures var t := a + ("'" + (c + ("'" + v))); t[o - 1] == '\\' || t[o - 1] == '\''
  {
    hide EscapeContent, QuotedTail;
    var t, m := a + ("'" + (c + ("'" + v))), o - |a| - 1;
    assert t[o] == c[m] && t[o - 1] == if m == 0 then '\'' else c[m - 1];
    QuoteInContent(c, m);
    if m > 0 && c[m - 1] != '\\' && c[m - 1] != '\'' {
      PairInside(a, c, v, m);
      MissesTheEnd(c[m + 2..], v);
    }
  }

  lemma PairInside(a: string, c: string, v: string, m: nat)
    requires m + 1 < |c| && c[m + 1] == '\''
    ensures (a + ("'" + (c + ("'" + v))))[|a| + m + 2..] == "'" + (c[m + 2..] + ("'" + v))
  {
    assert c == c[..m + 1] + ("'" + c[m + 2..]);
  }

  /** So if what stands in front of its first character is a space, it is exactly the part. */
  lemma LiteralIsThePart(a: string, c: string, v: string, o: nat)
    requires EscapeContent(c) && v != "" && Follows(v) && EndsInSpace(a)
    requires var t := a + ("'" + (c + ("'" + v)));
             OpensLiteral(t, o, |a| + |c| + 1) && o > 0 && (IsSpace(t[o - 1]) || IsStringPrefix(t[o - 1]))
    ensures o == |a| && !HidesQuote(c)
  {
    var t := a + ("'" + (c + ("'" + v)));
    OpensNotBefore(a, c, v, o);
    if o > |a| {
      OpensNotInside(a, c, v, o);
    }
    assert t[|a| + 1..] == c + ("'" + v);
    if HidesQuote(c) {
      HiddenQuoteMovesTheEnd(c, v);
    }
  }

  lemma FirstPartFits(e: char, c: string, w: string, z: string, t: string)
    requires (e == 'e' || e == 'E') && EscapeContent(c) && Quiet(w) && EndsInSpace(w)
    requires t == [e] + ("'" + (c + ("'" + (w + z))))
    requires StandsAt(false, t, |c| + 3 + |w|) && Written(false, t, |c| + 3 + |w|) == MASK + w
    ensures !HidesQuote(c)
  {
    hide NextToken, StandsAt, Written, Quiet;
    var p := |c| + 2;
    PartLayout([e], c, w, z, t);
    EndOfSum(MASK, w);
    var q := LastLiteral(false, t, p, p + 1 + |w|);
    FirstToken(false, t, q, MASK + w);
    assert t[0..] == t;
    var o := MaskedBetweenQuotes(false, t, p + 1);
    assert o == 1;
    HiddenMovesOpener(c, w + z, t, 1);
  }

  /** Where the pieces of a part lie in the text. */
  lemma PartLayout(a: string, c: string, w: string, z: string, t: string)
    requires Quiet(w) && EndsInSpace(w) && t == a + ("'" + (c + ("'" + (w + z))))
    ensures var p := |a| + |c| + 1;
            && p < |t| && t[p] == '\'' && t[|a|] == '\''
            && QuietStretch(t, p + 1, p + 1 + |w|) && t[p + 1..p + 1 + |w|] == w
    ensures w + z != "" && Follows(w + z) && (forall i :: 0 <= i < |a| ==> t[i] == a[i])
    ensures t[|a| + 1..] == c + ("'" + (w + z))
  {
  }

  lemma FirstToken(f: bool, t: string, q: nat, tail: string)
    requires StandsAt(f, t, q) && tail == Written(f, t, q) + tail
    ensures q == 0
  {
    assert |Written(f, t, q)| == 0;
    if q > 0 {
      WrittenSomething(f, t, q);
    }
  }

  lemma HiddenMovesOpener(c: string, v: string, t: string, o: nat)
    requires EscapeContent(c) && v != "" && Follows(v) && o < |t| && t[o + 1..] == c + ("'" + v)
    requires OpensLiteral(t, o, o + 1 + |c|)
    ensures !HidesQuote(c)
  {
    if HidesQuote(c) {
      HiddenQuoteMovesTheEnd(c, v);
    }
  }

  /** A literal found in the rest of a text lies in the text. */
  lemma OpensInText(t: string, q: nat, o: nat, end: nat)
    requires q <= |t| && OpensLiteral(t[q..], o, end)
    ensures OpensLiteral(t, q + o, q + end)
  {
    assert t[q..][o + 1..] == t[q + o + 1..];
  }

  /** The last part of a literal whose masks fit is masked as one token, and the masks fit up to there. */
  lemma LastPartFits(a: string, c: string, w: string, z: string, traces: string, t: string)
    requires EscapeContent(c) && Quiet(w) && EndsInSpace(w) && EndsInSpace(a) && EndsInSpace(traces)
    requires t == a + ("'" + (c + ("'" + (w + z))))
    requires var k := |a| + |c| + 2 + |w|; StandsAt(false, t, k) && Written(false, t, k) == traces + (MASK + w)
    ensures !HidesQuote(c) && StandsAt(false, t, |a|) && Written(false, t, |a|) == traces
  {
    hide NextToken, StandsAt, Written, Quiet;
    var p := |a| + |c| + 1;
    PartLayout(a, c, w, z, t);
    EndOfSum(traces, MASK + w);
    EndOfSum(MASK, w);
    var q := LastLiteral(false, t, p, p + 1 + |w|);
    SameFront(Written(false, t, q), traces, MASK + w);
    SpaceComesFromSpace(false, t, q);
    LastLiteralIsPart(a, c, w + z, t, q);
  }

  lemma LastLiteralIsPart(a: string, c: string, v: string, t: string, q: nat)
    requires EscapeContent(c) && v != "" && Follows(v) && EndsInSpace(a) && t == a + ("'" + (c + ("'" + v)))
    requires 0 < q <= |a| + |c| + 1 && IsSpace(t[q - 1])
    requires NextToken(FlagAt(false, t, q), t[q..]) == Masked(|a| + |c| + 2 - q)
    ensures q == |a| && !HidesQuote(c)
  {
    hide NextToken, EscapeContent, HidesQuote, FlagAt, QuotedTail, OpensLiteral;
    var n := |a| + |c| + 2 - q;
    assert t[q..][n - 1] == t[|a| + |c| + 1] == '\'';
    var o := MaskedBetweenQuotes(FlagAt(false, t, q), t[q..], n);
    OpensInText(t, q, o, n - 1);
    assert o == 1 ==> t[q] == t[q..][0];
    LiteralIsThePart(a, c, v, q + o);
    assert t[|a| - 1] == a[|a| - 1];
  }

  lemma {:induction false} FittingMasksHideNothing(
    e: char, first: string, parts: seq<Part>, w: string, z: string, t: string)
    requires IsLiteral(e, first, parts) && Quiet(w) && EndsInSpace(w) && t == Render(e, first, parts) + (w + z)
    requires var k := |Render(e, first, parts)| + |w|;
             StandsAt(false, t, k) && Written(false, t, k) == Traces(parts) + w
    ensures !HidesSomeQuote(first, parts)
    decreases |parts|
  {
    hide NextToken, StandsAt, Written, Quiet, EscapeContent, HidesQuote, Blank;
    if parts == [] {
      FirstRegroup([e], first, w + z);
      FirstPartFits(e, first, w, z, t);
    } else {
      var init, last := parts[..|parts| - 1], parts[|parts| - 1];
      assert last in parts && forall part :: part in init ==> part in parts;
      var before, traces := Render(e, first, init), Traces(init) + last.gap;
      BlankEndsInSpace(last.gap);
      EndOfSum(before, last.gap);
      EndOfSum(Traces(init), last.gap);
      var z' := "'" + (last.content + ("'" + (w + z)));
      LiteralRegroup(before, last.gap, last.content, w + z);
      Regroup(before, last.gap, z');
      TraceRegroup(Traces(init), last.gap, MASK, w);
      Regroup(Traces(init), last.gap, MASK + w);
      LastPartFits(before + last.gap, last.content, w, z, traces, t);
      FittingMasksHideNothing(e, first, init, last.gap, z', t);
      assert parts == init + [last];
    }
  }

  lemma FirstRegroup(a: string, c: string, s: string)
    ensures (a + ("'" + (c + "'"))) + s == a + ("'" + (c + ("'" + s)))
  {
  }

  /** Whatever follows the literal, the redacted query has a mask for each of its parts, the gaps between them, and then
      what becomes of the rest. */
  ghost predicate MaskedWhole(e: char, first: string, parts: seq<Part>)
  {
    forall s :: Follows(s) ==> Redacted(false, Render(e, first, parts) + s) == Traces(parts) + Redacted(false, s)
  }

  /** For every escape string, continued over lines or not: the scanner masks all of it and nothing else, whatever
      follows it, if and only if no backslash in it escapes a quote. */
  lemma EscapeStringMaskedIff(e: char, first: string, parts: seq<Part>)
    requires IsLiteral(e, first, parts)
    ensures MaskedWhole(e, first, parts) <==> !HidesSomeQuote(first, parts)
  {
    hide NextToken, Redacted, StandsAt, Written, Render, Traces, HidesSomeQuote;
    if !HidesSomeQuote(first, parts) {
      forall s | Follows(s)
        ensures Redacted(false, Render(e, first, parts) + s) == Traces(parts) + Redacted(false, s)
      {
        PartsAreMasked(e, first, parts, s);
      }
    }
    if MaskedWhole(e, first, parts) {
      var t := Render(e, first, parts) + " ";
      assert Follows(" ");
      SpaceIsCopied();
      StandsAtEnd(false, t);
      assert " " + "" == " ";
      FittingMasksHideNothing(e, first, parts, " ", "", t);
    }
  }

  lemma SpaceIsCopied()
    ensures Redacted(false, " ") == " "
  {
  }

  /** The same anywhere in a query where the scanner stands at top level, no identifier character in front of the
      literal. */
  lemma MaskedBehindPrefix(p: string, e: char, first: string, parts: seq<Part>, s: string)
    requires IsLiteral(e, first, parts) && !HidesSomeQuote(first, parts) && Follows(s)
    requires StandsAt(false, p + (Render(e, first, parts) + s), |p|) && !FlagAt(false, p, |p|)
    ensures var t := p + (Render(e, first, parts) + s);
            Redact(t) == Written(false, t, |p|) + (Traces(parts) + Redacted(false, s))
  {
    hide NextToken, Redacted, StandsAt, Written, Render, Traces, HidesSomeQuote;
    var t := p + (Render(e, first, parts) + s);
    RedactedSplit(false, t, |p|);
    PartsAreMasked(e, first, parts, s);
    assert t[|p|..] == Render(e, first, parts) + s;
  }

  // ----- Two literals whose end leaks

  const HIDING := "b\\'c"

  lemma HidingIsContent()
    ensures EscapeContent(HIDING) && HidesQuote(HIDING)
  {
    assert HIDING[1..] == "\\'c" && "\\'c"[2..] == "c";
  }

  lemma HidingEndsEarly()
    ensures QuotedTail(HIDING + "'") == 3 && (HIDING + "'")[3..] == "c'" && (HIDING + "'")[2] == '\''
  {
    var t := HIDING + "'";
    assert t[1..] == "\\'c'" && t[1..][1..] == "'c'" && t[3..] == "c'";
    assert QuotedTail("'c'") == 1;
  }

  lemma EndLeaks()
    ensures Redacted(false, "c'") == "c***"
  {
    assert "c'"[1..] == "'" && "'"[1..] == "";
    assert Redacted(true, "'") == MASK + "";
  }

  /** E'b\'c' is one literal, the text b'c; the scanner ends it at the escaped quote, and the c is stored. */
  lemma EscapedQuoteLeaks()
    ensures IsLiteral('E', HIDING, []) && Redact(Render('E', HIDING, [])) == "***c***"
  {
    hide NextToken, Redacted, QuotedTail, EscapeContent;
    HidingIsContent();
    HidingEndsEarly();
    EndLeaks();
    PrefixedIsMasked('E', HIDING + "'", "c'");
    assert Render('E', HIDING, []) == ['E'] + ("'" + (HIDING + "'"));
    assert MASK + "c***" == "***c***";
  }

  /** E in front of the first part covers the parts on later lines too: of E'a', a line end and 'b\'c', the c is
      stored. */
  lemma ContinuedQuoteLeaks()
    ensures var parts := [Part("\n", HIDING)];
            IsLiteral('E', "a", parts) && Redact(Render('E', "a", parts)) == "***\n***c***"
  {
    hide NextToken, Redacted, QuotedTail, EscapeContent, Blank;
    var rest := "\n" + ("'" + (HIDING + "'"));
    LineEndIsGap();
    HidingIsContent();
    FirstPartIsMasked('E', "a", rest);
    LaterPartLeaks();
    assert Render('E', "a", []) == ['E'] + ("'" + ("a" + "'"));
    assert Render('E', "a", [Part("\n", HIDING)]) == ['E'] + ("'" + ("a" + ("'" + rest)));
  }

  lemma LineEndIsGap()
    ensures IsGap("\n") && EscapeContent("a") && !HidesQuote("a")
  {
    assert IsNewline("\n"[0]) && "a"[1..] == "";
  }

  lemma LaterPartLeaks()
    ensures Redacted(false, "\n" + ("'" + (HIDING + "'"))) == "\n***c***"
  {
    hide NextToken, Redacted, QuotedTail;
    var t := "'" + (HIDING + "'");
    NewlineIsCopied(t);
    HidingEndsEarly();
    EndLeaks();
    assert t[1..] == HIDING + "'" && t[4..] == (HIDING + "'")[3..];
    PlainToken(t, 4);
    MaskedAway(false, t, 4, "c'");
  }

  lemma PlainToken(t: string, n: nat)
    requires t != "" && t[0] == '\'' && n == 1 + QuotedTail(t[1..])
    ensures NextToken(false, t) == Masked(n)
  {
  }

  lemma NewlineIsCopied(t: string)
    ensures Redacted(false, "\n" + t) == "\n" + Redacted(false, t)
  {
    assert ("\n" + t)[1..] == t;
  }
}
