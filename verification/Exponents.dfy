/** Numbers in scientific notation (section 4.1.2.6 of the PostgreSQL 16 documentation) under the scanner of
    go/internal/infrastructure/history/redact.go, which does not expect digit separators in an exponent. */
module Exponents {
  import opened Redaction
  import opened RedactionProperties
  import opened Numbers

  /** Digits, with single underscores between them. */
  predicate SeparatedDigits(x: string)
  {
    && x != "" && IsDecimalDigit(x[0])
    && (|x| == 1 || SeparatedDigits(x[1..]) || (|x| > 2 && x[1] == '_' && SeparatedDigits(x[2..])))
  }

  predicate IsSign(sign: string)
  {
    sign == "" || sign == "+" || sign == "-"
  }

  lemma {:induction false} SeparatedCharacters(x: string)
    requires SeparatedDigits(x)
    ensures x != "" && IsDigit(x[0]) && forall k :: 0 <= k < |x| ==> IsDigit(x[k]) || x[k] == '_'
  {
    if |x| > 1 {
      if SeparatedDigits(x[1..]) {
        SeparatedCharacters(x[1..]);
      } else {
        SeparatedCharacters(x[2..]);
        assert forall k :: 2 <= k < |x| ==> x[k] == x[2..][k - 2];
      }
      assert forall k :: 1 <= k < |x| ==> x[k] == x[1..][k - 1];
    }
  }

  /** The exponent up to its first separator. */
  function Leading(x: string): (n: nat)
    ensures n <= |x|
  {
    Run(IsDigit, x)
  }

  lemma LeadingIsAllIffNoSeparator(x: string)
    requires SeparatedDigits(x)
    ensures 0 < Leading(x) && (Leading(x) == |x| <==> '_' !in x)
  {
    SeparatedCharacters(x);
    if Leading(x) == |x| {
      assert forall k :: 0 <= k < |x| ==> IsDigit(x[k]);
    } else {
      assert x[Leading(x)] == '_';
    }
  }

  lemma {:induction false} LeadingStops(x: string, rest: string)
    requires SeparatedDigits(x) && !StartsWithDigit(rest)
    ensures Run(IsDigit, x + rest) == Leading(x)
  {
    SeparatedCharacters(x);
    var n := Leading(x);
    assert x + rest == x[..n] + (x[n..] + rest);
    RunOfAll(IsDigit, x[..n], x[n..] + rest);
  }

  lemma MantissaEnds(m: string, e: char, z: string)
    requires IsMantissa(m) && IsExponentMark(e)
    ensures Run(InDecimalNumber, m + ([e] + z)) == |m|
  {
    RunOfAll(InDecimalNumber, m, [e] + z);
  }

  lemma ExponentBegins(m: string, e: char, sign: string, y: string)
    requires IsExponentMark(e) && IsSign(sign) && y != "" && IsDigit(y[0])
    ensures var t := m + ([e] + (sign + y));
            && t[|m|] == e && ExponentDigits(t, |m|) == |m| + 1 + |sign| && t[|m| + 1 + |sign|..] == y
  {
    var t, k := m + ([e] + (sign + y)), |m| + 1 + |sign|;
    assert t[k..] == y && t[k] == y[0];
    assert sign != "" ==> t[|m| + 1] == sign[0];
  }

  lemma ExponentEnds(m: string, e: char, sign: string, x: string, rest: string)
    requires IsExponentMark(e) && IsSign(sign) && SeparatedDigits(x) && !StartsWithDigit(rest)
    ensures var t := m + ([e] + (sign + (x + rest)));
            WithExponent(t, |m|) == |m| + 1 + |sign| + Leading(x)
  {
    hide Run, ExponentDigits, SeparatedDigits;
    SeparatedCharacters(x);
    ExponentBegins(m, e, sign, x + rest);
    LeadingStops(x, rest);
  }

  lemma NumberToken(m: string, e: char, sign: string, x: string, rest: string)
    requires IsMantissa(m) && IsExponentMark(e) && IsSign(sign) && SeparatedDigits(x) && !StartsWithDigit(rest)
    ensures var t := m + ([e] + (sign + (x + rest)));
            NextToken(false, t) == Masked(|m| + 1 + |sign| + Leading(x))
  {
    hide Run, WithExponent, SeparatedDigits;
    var t := m + ([e] + (sign + (x + rest)));
    MantissaEnds(m, e, sign + (x + rest));
    ExponentEnds(m, e, sign, x, rest);
    assert t[0] == m[0] && (|m| > 1 ==> t[1] == m[1]) && (|m| == 1 ==> t[1] == e);
  }

  /** Behind an identifier character, digits and underscores are copied. */
  lemma {:induction false} CopiedBehindIdent(y: string, rest: string)
    requires forall k :: 0 <= k < |y| ==> IsDigit(y[k]) || y[k] == '_'
    ensures Redacted(true, y + rest) == y + Redacted(true, rest)
  {
    hide Redacted;
    if y == "" {
      assert y + rest == rest;
    } else {
      var t := y + rest;
      assert t[0] == y[0] && t[1..] == y[1..] + rest;
      RedactedNext(true, t);
      CopiedBehindIdent(y[1..], rest);
      assert y == [y[0]] + y[1..];
    }
  }

  /** Of a number in scientific notation the scanner leaves what stands in the exponent from the first separator on. */
  lemma WhatIsLeft(m: string, e: char, sign: string, x: string, rest: string)
    requires IsMantissa(m) && IsExponentMark(e) && IsSign(sign) && SeparatedDigits(x) && !StartsWithDigit(rest)
    ensures Redacted(false, m + ([e] + (sign + (x + rest)))) == MASK + (x[Leading(x)..] + Redacted(true, rest))
  {
    hide Redacted, NextToken, SeparatedDigits;
    var t, n := m + ([e] + (sign + (x + rest))), |m| + 1 + |sign| + Leading(x);
    NumberToken(m, e, sign, x, rest);
    LeadingIsAllIffNoSeparator(x);
    SeparatedCharacters(x);
    RedactedNext(false, t);
    assert Rest(false, t) == x[Leading(x)..] + rest;
    assert t[n - 1] == x[Leading(x) - 1];
    CopiedBehindIdent(x[Leading(x)..], rest);
  }

  /** For every number in scientific notation that is not an identifier's tail: the scanner masks all of it, whatever
      follows, if and only if no separator stands in its exponent. */
  lemma NumberMaskedIff(m: string, e: char, sign: string, x: string, rest: string)
    requires IsMantissa(m) && IsExponentMark(e) && IsSign(sign) && SeparatedDigits(x) && !StartsWithDigit(rest)
    ensures Redacted(false, m + ([e] + (sign + (x + rest)))) == MASK + Redacted(true, rest) <==> '_' !in x
  {
    hide Redacted, SeparatedDigits;
    WhatIsLeft(m, e, sign, x, rest);
    LeadingIsAllIffNoSeparator(x);
    SamePrefixEqual(MASK, x[Leading(x)..] + Redacted(true, rest), Redacted(true, rest));
    if Leading(x) == |x| {
      assert x[Leading(x)..] + Redacted(true, rest) == Redacted(true, rest);
    } else {
      assert |x[Leading(x)..] + Redacted(true, rest)| > |Redacted(true, rest)|;
    }
  }

  /** 1e5_000 is one number to PostgreSQL; the scanner leaves _000 behind. */
  lemma SeparatorEndsExponent()
    ensures SeparatedDigits("5_000") && Redact("1e5_000") == MASK + "_000"
  {
    hide Redacted;
    assert "5_000"[2..] == "000" && "000"[1..] == "00" && "00"[1..] == "0";
    FiveLeads();
    WhatIsLeft("1", 'e', "", "5_000", "");
    assert "1" + (['e'] + ("" + ("5_000" + ""))) == "1e5_000";
    NothingLeft();
    assert "5_000"[1..] == "_000";
  }

  lemma FiveLeads()
    ensures Leading("5_000") == 1
  {
    assert "5_000"[1..] == "_000";
  }

  lemma NothingLeft()
    ensures Redacted(true, "") == ""
  {
  }
}
