/** What redaction guarantees, for every query: the output's shape, idempotence, and what comes out unchanged. */
module RedactionProperties {
  import opened Redaction

  // ----- Output shape

  lemma {:induction false} NoQuoteSurvives(afterIdent: bool, t: string)
    ensures '\'' !in Redacted(afterIdent, t)
    decreases |t|
  {
    if t != "" {
      var n := Length(NextToken(afterIdent, t));
      NoQuoteSurvives(IsIdentChar(t[n - 1]), t[n..]);
    }
  }

  lemma {:induction false} OutputAtMostTriples(afterIdent: bool, t: string)
    ensures |Redacted(afterIdent, t)| <= 3 * |t|
    decreases |t|
  {
    if t != "" {
      var n := Length(NextToken(afterIdent, t));
      OutputAtMostTriples(IsIdentChar(t[n - 1]), t[n..]);
    }
  }

  predicate StartsWithDigit(t: string)
  {
    t != "" && IsDigit(t[0])
  }

  /** Output starts with a digit only where the text does, right behind an identifier character. */
  lemma FirstDigitIsCopied(afterIdent: bool, t: string)
    ensures StartsWithDigit(Redacted(afterIdent, t)) ==> afterIdent && StartsWithDigit(t)
  {
  }

  /** A masked literal that ends in an identifier character is a number, and no digit follows it. */
  lemma NoDigitAfterMasked(afterIdent: bool, t: string)
    requires t != "" && NextToken(afterIdent, t).Masked?
    ensures var n := Length(NextToken(afterIdent, t)); IsIdentChar(t[n - 1]) ==> !StartsWithDigit(t[n..])
  {
    var n := Length(NextToken(afterIdent, t));
    if t[0] == '$' {
      DollarQuoteEnd(t);
    } else if t[0] == '\'' {
      QuotedTailEnd(t[1..]);
    } else if IsStringPrefix(t[0]) && !afterIdent && |t| > 1 && t[1] == '\'' {
      QuotedTailEnd(t[2..]);
    }
  }

  lemma {:induction false} QuotedTailEnd(t: string)
    ensures QuotedTail(t) < |t| ==> QuotedTail(t) > 0 && t[QuotedTail(t) - 1] == '\''
  {
    if t != "" && t[0] != '\'' {
      QuotedTailEnd(t[1..]);
    } else if |t| > 1 && t[1] == '\'' {
      QuotedTailEnd(t[2..]);
    }
  }

  lemma {:induction false} IndexOfMatches(t: string, d: string)
    ensures IndexOf(t, d) >= 0 ==> StartsWith(t[IndexOf(t, d)..], d)
  {
    if !StartsWith(t, d) && t != "" {
      IndexOfMatches(t[1..], d);
      if IndexOf(t[1..], d) >= 0 {
        assert t[1..][IndexOf(t[1..], d)..] == t[IndexOf(t, d)..];
      }
    }
  }

  lemma DollarQuoteEnd(t: string)
    requires t != "" && t[0] == '$'
    ensures 0 < DollarQuoteLength(t) < |t| ==> t[DollarQuoteLength(t) - 1] == '$'
  {
    var tag, n := Run(IsIdentChar, t[1..]), DollarQuoteLength(t);
    if 0 < n < |t| {
      var content, d := t[tag + 2..], t[..tag + 2];
      var close := IndexOf(content, d);
      IndexOfMatches(content, d);
      assert content[close..][..|d|][|d| - 1] == d[|d| - 1] == '$';
    }
  }

  /** Every digit written directly follows an identifier character or the $ of a placeholder. */
  lemma {:induction false} DigitsAreAttached(afterIdent: bool, t: string, k: nat)
    requires k < |Redacted(afterIdent, t)| && IsDigit(Redacted(afterIdent, t)[k])
    ensures if k == 0 then afterIdent
            else Redacted(afterIdent, t)[k - 1] == '$' || IsIdentChar(Redacted(afterIdent, t)[k - 1])
    decreases |t|
  {
    hide NextToken, Redacted;
    NothingOfNothing(afterIdent);
    var token := NextToken(afterIdent, t);
    var last, rest := BeforeRest(afterIdent, t), Rest(afterIdent, t);
    var image, tail := Image(token, t), Redacted(last, rest);
    RedactedNext(afterIdent, t);
    ImageIsAttached(afterIdent, t);
    assert forall i :: 0 <= i < |image| ==> Redacted(afterIdent, t)[i] == image[i];
    if k < |image| {
      assert Redacted(afterIdent, t)[k] == image[k];
      assert k > 0 ==> Redacted(afterIdent, t)[k - 1] == image[k - 1];
    } else {
      assert Redacted(afterIdent, t)[k] == tail[k - |image|];
      assert k > |image| ==> Redacted(afterIdent, t)[k - 1] == tail[k - |image| - 1];
      DigitsAreAttached(last, rest, k - |image|);
      if k == |image| && token.Masked? {
        FirstDigitIsCopied(last, rest);
        NoDigitAfterMasked(afterIdent, t);
      }
    }
  }

  lemma NothingOfNothing(f: bool)
    ensures Redacted(f, "") == ""
  {
  }

  /** The same for what one token leaves; and a copied token ends as it ends in the text. */
  lemma ImageIsAttached(f: bool, t: string)
    requires t != ""
    ensures var image := Image(NextToken(f, t), t);
            && image != ""
            && (IsDigit(image[0]) ==> f)
            && (forall k :: 0 < k < |image| && IsDigit(image[k]) ==> image[k - 1] == '$' || IsIdentChar(image[k - 1]))
            && (!NextToken(f, t).Masked? ==> image[|image| - 1] == t[Length(NextToken(f, t)) - 1])
  {
    if NextToken(f, t).Placeholder? {
      assert forall k :: 1 <= k < Length(NextToken(f, t)) ==> t[k] == t[1..][k - 1];
    }
  }

  // ----- Idempotence

  /** A $ in front of t would open a dollar quote. */
  predicate OpensDollar(t: string)
  {
    t != "" && (t[0] == '$' || (IsIdentChar(t[0]) && OpensDollar(t[1..])))
  }

  lemma DollarQuoteNeedsOpening(t: string)
    requires t != "" && t[0] == '$'
    ensures DollarQuoteLength(t) > 0 <==> OpensDollar(t[1..])
  {
    OpensDollarByRun(t[1..]);
  }

  lemma {:induction false} OpensDollarByRun(t: string)
    ensures OpensDollar(t) <==> Run(IsIdentChar, t) < |t| && t[Run(IsIdentChar, t)] == '$'
  {
    if t != "" && IsIdentChar(t[0]) {
      OpensDollarByRun(t[1..]);
    }
  }

  /** Why a character was copied, and what that makes of the output. */
  lemma CopiedChar(afterIdent: bool, t: string)
    requires t != "" && NextToken(afterIdent, t).Verbatim?
    ensures IsDigit(t[0]) ==> afterIdent
    ensures t[0] == '$' ==> !OpensDollar(t[1..])
    ensures Redacted(afterIdent, t) == [t[0]] + Redacted(IsIdentChar(t[0]), t[1..])
  {
    if t[0] == '$' {
      DollarQuoteNeedsOpening(t);
    }
  }

  lemma OpensDollarBehind(c: char, t: string)
    ensures OpensDollar([c] + t) <==> c == '$' || (IsIdentChar(c) && OpensDollar(t))
  {
    assert ([c] + t)[1..] == t;
  }

  /** Redaction never completes a dollar quote that the text left open. */
  lemma {:induction false} RedactedOpensNoDollar(afterIdent: bool, t: string)
    requires !OpensDollar(t)
    ensures !OpensDollar(Redacted(afterIdent, t))
    decreases |t|
  {
    if t != "" && NextToken(afterIdent, t).Verbatim? {
      CopiedChar(afterIdent, t);
      OpensDollarBehind(t[0], Redacted(IsIdentChar(t[0]), t[1..]));
      if IsIdentChar(t[0]) {
        RedactedOpensNoDollar(true, t[1..]);
      }
    }
  }

  lemma StarIsCopied(afterIdent: bool, t: string)
    ensures Redacted(afterIdent, "*" + t) == "*" + Redacted(false, t)
  {
    hide Redacted;
    var s := "*" + t;
    assert s[0] == '*' && s[1..] == t && s[..1] == "*";
    RedactedNext(afterIdent, s);
  }

  lemma ThreeStarsAreCopied(afterIdent: bool, t: string)
    ensures Redacted(afterIdent, "*" + ("*" + ("*" + t))) == "*" + ("*" + ("*" + Redacted(false, t)))
  {
    StarIsCopied(afterIdent, "*" + ("*" + t));
    StarIsCopied(false, "*" + t);
    StarIsCopied(false, t);
  }

  lemma MaskIsThreeStars(t: string)
    ensures MASK + t == "*" + ("*" + ("*" + t))
  {
  }

  /** Scanning the mask copies it. */
  lemma MaskIsCopied(afterIdent: bool, t: string)
    ensures Redacted(afterIdent, MASK + t) == MASK + Redacted(false, t)
  {
    MaskIsThreeStars(t);
    MaskIsThreeStars(Redacted(false, t));
    ThreeStarsAreCopied(afterIdent, t);
  }

  lemma {:induction false} RunOfAll(inClass: char -> bool, s: string, t: string)
    requires forall k :: 0 <= k < |s| ==> inClass(s[k])
    requires t == "" || !inClass(t[0])
    ensures Run(inClass, s + t) == |s|
  {
    if s == "" {
      assert s + t == t;
    } else {
      assert (s + t)[1..] == s[1..] + t;
      RunOfAll(inClass, s[1..], t);
    }
  }

  lemma PlaceholderToken(afterIdent: bool, p: string, t: string)
    requires |p| > 1 && p[0] == '$' && (forall k :: 1 <= k < |p| ==> IsDigit(p[k])) && !StartsWithDigit(t)
    ensures NextToken(afterIdent, p + t) == Placeholder(|p|)
  {
    assert (p + t)[1..] == p[1..] + t;
    RunOfAll(IsDigit, p[1..], t);
  }

  /** Scanning a placeholder copies it. */
  lemma PlaceholderIsCopied(afterIdent: bool, p: string, t: string)
    requires |p| > 1 && p[0] == '$' && (forall k :: 1 <= k < |p| ==> IsDigit(p[k])) && !StartsWithDigit(t)
    ensures Redacted(afterIdent, p + t) == p + Redacted(true, t)
  {
    hide Redacted;
    PlaceholderToken(afterIdent, p, t);
    RedactedNext(afterIdent, p + t);
    assert (p + t)[|p|..] == t && (p + t)[..|p|] == p;
  }

  /** Scanning a character copied the first time copies it again. */
  lemma VerbatimIsCopied(afterIdent: bool, c: char, t: string)
    requires '\'' !in [c] + t
    requires IsDigit(c) ==> afterIdent
    requires c == '$' ==> !StartsWithDigit(t) && !OpensDollar(t)
    ensures Redacted(afterIdent, [c] + t) == [c] + Redacted(IsIdentChar(c), t)
  {
    var s := [c] + t;
    assert s[1..] == t;
    if c == '$' {
      DollarQuoteNeedsOpening(s);
    }
    assert |s| > 1 ==> s[1] in s;
    assert c in s;
  }

  /** The rest of a text behind its first token, and whether an identifier character stands before it. */
  function Rest(afterIdent: bool, t: string): string
    requires t != ""
  {
    t[Length(NextToken(afterIdent, t))..]
  }

  function BeforeRest(afterIdent: bool, t: string): bool
    requires t != ""
  {
    IsIdentChar(t[Length(NextToken(afterIdent, t)) - 1])
  }

  lemma RedactedNext(afterIdent: bool, t: string)
    requires t != ""
    ensures Redacted(afterIdent, t) ==
      Image(NextToken(afterIdent, t), t) + Redacted(BeforeRest(afterIdent, t), Rest(afterIdent, t))
  {
    hide NextToken;
  }

  lemma PlaceholderShape(f: bool, t: string)
    requires t != "" && NextToken(f, t).Placeholder?
    ensures var n := Length(NextToken(f, t));
            && n > 1 && t[0] == '$' && BeforeRest(f, t) && !StartsWithDigit(Rest(f, t))
            && forall k :: 1 <= k < n ==> IsDigit(t[k])
  {
    assert forall k :: 1 <= k < |t| ==> t[k] == t[1..][k - 1];
  }

  lemma PlaceholderIsFixed(first: bool, second: bool, t: string, output: string)
    requires t != "" && NextToken(first, t).Placeholder?
    requires output == Redacted(true, Rest(first, t)) && Redacted(true, output) == output
    ensures Redacted(second, Redacted(first, t)) == Redacted(first, t)
  {
    hide Redacted, NextToken;
    FirstDigitIsCopied(true, Rest(first, t));
    RedactedNext(first, t);
    PlaceholderShape(first, t);
    PlaceholderIsCopied(second, t[..Length(NextToken(first, t))], output);
  }

  lemma RedactedOpensNothing(t: string)
    requires !OpensDollar(t)
    ensures !StartsWithDigit(Redacted(false, t)) && !OpensDollar(Redacted(false, t))
  {
    FirstDigitIsCopied(false, t);
    RedactedOpensNoDollar(false, t);
  }

  lemma CopiedCharIsFixed(first: bool, second: bool, t: string, output: string)
    requires first == second || !StartsWithDigit(t)
    requires t != "" && NextToken(first, t).Verbatim?
    requires output == Redacted(IsIdentChar(t[0]), t[1..]) && Redacted(IsIdentChar(t[0]), output) == output
    ensures Redacted(second, Redacted(first, t)) == Redacted(first, t)
  {
    CopiedChar(first, t);
    NoQuoteSurvives(first, t);
    if t[0] == '$' {
      RedactedOpensNothing(t[1..]);
    }
    VerbatimIsCopied(second, t[0], output);
  }

  /** Redacting what redaction wrote changes nothing; the second scan may have lost the first one's memory of
      an identifier character where it put a mask, which only matters in front of a digit. */
  lemma {:induction false} RedactedIsFixed(first: bool, second: bool, t: string)
    requires first == second || !StartsWithDigit(t)
    ensures Redacted(second, Redacted(first, t)) == Redacted(first, t)
    decreases |t|
  {
    if t != "" {
      var last, rest := BeforeRest(first, t), Rest(first, t);
      match NextToken(first, t) {
        case Masked(_) =>
          NoDigitAfterMasked(first, t);
          RedactedIsFixed(last, false, rest);
          MaskIsCopied(second, Redacted(last, rest));
        case Placeholder(_) =>
          RedactedIsFixed(last, true, rest);
          PlaceholderIsFixed(first, second, t, Redacted(last, rest));
        case Verbatim =>
          RedactedIsFixed(last, last, rest);
          CopiedCharIsFixed(first, second, t, Redacted(last, rest));
      }
    }
  }

  lemma RedactionIsIdempotent(query: string)
    ensures Redact(Redact(query)) == Redact(query)
  {
    RedactedIsFixed(false, false, query);
  }

  // ----- Nothing but literals is touched

  predicate MasksNothing(afterIdent: bool, t: string)
    decreases |t|
  {
    t == "" ||
    var n := Length(NextToken(afterIdent, t));
    !NextToken(afterIdent, t).Masked? && MasksNothing(IsIdentChar(t[n - 1]), t[n..])
  }

  lemma MaskShows(afterIdent: bool, t: string)
    requires t != "" && NextToken(afterIdent, t).Masked?
    ensures Redacted(afterIdent, t) != t
  {
    assert Redacted(afterIdent, t)[0] == '*' != t[0];
  }

  lemma SamePrefixEqual(p: string, a: string, b: string)
    ensures p + a == p + b <==> a == b
  {
    assert (p + a)[|p|..] == a && (p + b)[|p|..] == b;
  }

  /** A text comes out unchanged exactly when the scanner finds no literal in it. */
  lemma {:induction false} UnchangedIffNothingMasked(afterIdent: bool, t: string)
    ensures Redacted(afterIdent, t) == t <==> MasksNothing(afterIdent, t)
    decreases |t|
  {
    if t != "" {
      hide Redacted, NextToken;
      RedactedNext(afterIdent, t);
      var n, rest := Length(NextToken(afterIdent, t)), Rest(afterIdent, t);
      var output := Redacted(BeforeRest(afterIdent, t), rest);
      UnchangedIffNothingMasked(BeforeRest(afterIdent, t), rest);
      if NextToken(afterIdent, t).Masked? {
        MaskShows(afterIdent, t);
      } else {
        SamePrefixEqual(t[..n], output, rest);
        assert t == t[..n] + rest;
      }
    }
  }
}
