/** Positions in a query at which the scanner of go/internal/infrastructure/history/redact.go stands between two tokens:
    what it has written by then, and what that depends on. */
module ScannerPositions {
  import opened Redaction
  import opened RedactionProperties

  // ----- Standing at a position

  /** The scanner of t stands at top level k characters in: some token ends, or the text starts, there. */
  predicate StandsAt(afterIdent: bool, t: string, k: nat)
    decreases k
  {
    k == 0 || (t != "" && Length(NextToken(afterIdent, t)) <= k
               && StandsAt(BeforeRest(afterIdent, t), Rest(afterIdent, t), k - Length(NextToken(afterIdent, t))))
  }

  function FlagAt(f: bool, t: string, k: nat): bool
    requires k <= |t|
  {
    if k == 0 then f else IsIdentChar(t[k - 1])
  }

  /** What the scanner has written when it stands k characters in. */
  function Written(f: bool, t: string, k: nat): string
    requires StandsAt(f, t, k)
    decreases k
  {
    if k == 0 then ""
    else
      var token := NextToken(f, t);
      Image(token, t) + Written(BeforeRest(f, t), Rest(f, t), k - Length(token))
  }

  lemma StandsAtStart(f: bool, t: string)
    ensures StandsAt(f, t, 0) && Written(f, t, 0) == "" && FlagAt(f, t, 0) == f && t[0..] == t
  {
  }

  lemma {:induction false} StandsInside(f: bool, t: string, k: nat)
    requires StandsAt(f, t, k)
    ensures k <= |t|
    decreases k
  {
    hide NextToken;
    if k > 0 {
      StandsInside(BeforeRest(f, t), Rest(f, t), k - Length(NextToken(f, t)));
    }
  }

  lemma StandsAtToken(f: bool, t: string, k: nat)
    requires StandsAt(f, t, k) && k > 0
    ensures t != "" && Length(NextToken(f, t)) <= k
  {
    hide NextToken;
  }

  lemma AfterToken(f: bool, t: string, k: nat)
    requires t != "" && k >= Length(NextToken(f, t))
    ensures var n, last, rest := Length(NextToken(f, t)), BeforeRest(f, t), Rest(f, t);
            && (StandsAt(f, t, k) <==> StandsAt(last, rest, k - n))
            && (StandsAt(f, t, k) ==> Written(f, t, k) == Image(NextToken(f, t), t) + Written(last, rest, k - n))
  {
    hide NextToken;
  }

  lemma {:induction false} StandsAtEnd(f: bool, t: string)
    ensures StandsAt(f, t, |t|) && Written(f, t, |t|) == Redacted(f, t)
    decreases |t|
  {
    hide NextToken;
    if t != "" {
      StandsAtEnd(BeforeRest(f, t), Rest(f, t));
    }
  }

  lemma WrittenSomething(f: bool, t: string, k: nat)
    requires StandsAt(f, t, k) && k > 0
    ensures Written(f, t, k) != ""
  {
    hide NextToken;
  }

  lemma Regroup(a: string, b: string, c: string)
    ensures (a + b) + c == a + (b + c)
  {
  }

  lemma SameFront(a: string, b: string, tail: string)
    requires a + tail == b + tail
    ensures a == b
  {
    assert |a| == |b| && (a + tail)[..|a|] == (b + tail)[..|b|];
  }

  lemma RestAt(f: bool, t: string, k: nat)
    requires t != "" && Length(NextToken(f, t)) <= k <= |t|
    ensures var n := Length(NextToken(f, t));
            && Rest(f, t)[k - n..] == t[k..]
            && FlagAt(BeforeRest(f, t), Rest(f, t), k - n) == FlagAt(f, t, k)
  {
    hide NextToken;
  }

  lemma {:induction false} RedactedSplit(f: bool, t: string, k: nat)
    requires StandsAt(f, t, k)
    ensures k <= |t| && Redacted(f, t) == Written(f, t, k) + Redacted(FlagAt(f, t, k), t[k..])
    decreases k
  {
    hide NextToken, Redacted, StandsAt, Written;
    StandsInside(f, t, k);
    if k > 0 {
      var n := Length(NextToken(f, t));
      StandsAtToken(f, t, k);
      AfterToken(f, t, k);
      RedactedNext(f, t);
      RestAt(f, t, k);
      RedactedSplit(BeforeRest(f, t), Rest(f, t), k - n);
      Regroup(Image(NextToken(f, t), t), Written(BeforeRest(f, t), Rest(f, t), k - n),
              Redacted(FlagAt(f, t, k), t[k..]));
    } else {
      StandsAtStart(f, t);
    }
  }

  // ----- What a token depends on

  /** No token but a literal goes past a quote or a dollar sign. */
  predicate EndsInStop(t: string)
  {
    t != "" && (t[|t| - 1] == '\'' || t[|t| - 1] == '$')
  }

  lemma {:induction false} RunIsLocal(inClass: char -> bool, t: string, w: string)
    requires t != "" && !inClass(t[|t| - 1])
    ensures Run(inClass, t + w) == Run(inClass, t) < |t|
  {
    assert (t + w)[1..] == t[1..] + w;
    if |t| > 1 && inClass(t[0]) {
      RunIsLocal(inClass, t[1..], w);
    }
  }

  lemma {:induction false} QuotedTailIsLocal(t: string, w: string)
    requires QuotedTail(t) < |t|
    ensures QuotedTail(t + w) == QuotedTail(t)
  {
    assert (t + w)[1..] == t[1..] + w;
    if t[0] != '\'' {
      QuotedTailIsLocal(t[1..], w);
    } else if t[1] == '\'' {
      assert (t + w)[2..] == t[2..] + w;
      QuotedTailIsLocal(t[2..], w);
    }
  }

  lemma {:induction false} IndexOfIsLocal(t: string, d: string, w: string)
    requires IndexOf(t, d) >= 0
    ensures IndexOf(t + w, d) == IndexOf(t, d)
  {
    assert (t + w)[..|d|] == t[..|d|];
    if !StartsWith(t, d) {
      assert (t + w)[1..] == t[1..] + w;
      IndexOfIsLocal(t[1..], d, w);
    }
  }

  lemma PlaceholderIsLocal(t: string, w: string)
    requires |t| > 1 && EndsInStop(t)
    ensures PlaceholderLength(t + w) == PlaceholderLength(t)
  {
    assert (t + w)[1..] == t[1..] + w;
    RunIsLocal(IsDigit, t[1..], w);
  }

  lemma DollarQuoteIsLocal(t: string, w: string)
    requires |t| > 1 && EndsInStop(t) && DollarQuoteLength(t) < |t|
    ensures DollarQuoteLength(t + w) == DollarQuoteLength(t)
  {
    hide Run, IndexOf;
    var tag := Run(IsIdentChar, t[1..]);
    assert (t + w)[1..] == t[1..] + w;
    RunIsLocal(IsIdentChar, t[1..], w);
    if t[tag + 1] == '$' {
      assert (t + w)[tag + 2..] == t[tag + 2..] + w && (t + w)[..tag + 2] == t[..tag + 2];
      IndexOfIsLocal(t[tag + 2..], t[..tag + 2], w);
    }
  }

  lemma ExponentIsLocal(t: string, w: string, j: nat)
    requires EndsInStop(t) && j < |t|
    ensures WithExponent(t + w, j) == WithExponent(t, j)
  {
    hide Run;
    if t[j] == 'e' || t[j] == 'E' {
      var k := ExponentDigits(t, j);
      assert k < |t| && ExponentDigits(t + w, j) == k && (t + w)[k..] == t[k..] + w;
      RunIsLocal(IsDigit, t[k..], w);
    }
  }

  lemma NumberIsLocal(t: string, w: string)
    requires EndsInStop(t) && IsDigit(t[0])
    ensures NumericLength(t + w) == NumericLength(t)
  {
    hide Run, WithExponent;
    if t[0] == '0' && IsRadixPrefix(t[1]) {
      assert (t + w)[2..] == t[2..] + w;
      RunIsLocal(InRadixNumber, t[2..], w);
    } else {
      RunIsLocal(InDecimalNumber, t, w);
      ExponentIsLocal(t, w, Run(InDecimalNumber, t));
    }
  }

  /** A token that ends in front of a quote or a dollar sign does not depend on what follows that. */
  lemma TokenIsLocal(f: bool, t: string, w: string)
    requires EndsInStop(t) && Length(NextToken(f, t)) < |t|
    ensures NextToken(f, t + w) == NextToken(f, t)
  {
    hide QuotedTail, PlaceholderLength, DollarQuoteLength, NumericLength;
    assert (t + w)[0] == t[0] && (t + w)[1] == t[1] && (t + w)[1..] == t[1..] + w && (t + w)[2..] == t[2..] + w;
    if t[0] == '$' {
      PlaceholderIsLocal(t, w);
      if PlaceholderLength(t) == 0 {
        DollarQuoteIsLocal(t, w);
      }
    } else if IsStringPrefix(t[0]) && !f && t[1] == '\'' {
      QuotedTailIsLocal(t[2..], w);
    } else if t[0] == '\'' {
      QuotedTailIsLocal(t[1..], w);
    } else if IsDigit(t[0]) && !f {
      NumberIsLocal(t, w);
    }
  }

  /** Nor does it matter to where the scanner stands by then, or to what it has written. */
  lemma {:induction false} PositionIsLocal(f: bool, t: string, k: nat, w: string)
    requires EndsInStop(t) && k < |t| && StandsAt(f, t, k)
    ensures StandsAt(f, t + w, k) && Written(f, t + w, k) == Written(f, t, k)
    decreases k
  {
    hide NextToken, StandsAt, Written;
    if k == 0 {
      StandsAtStart(f, t);
      StandsAtStart(f, t + w);
    } else {
      var n := Length(NextToken(f, t));
      StandsAtToken(f, t, k);
      AfterToken(f, t, k);
      TokenIsLocal(f, t, w);
      AfterToken(f, t + w, k);
      RestIsLocal(f, t, w);
      PositionIsLocal(BeforeRest(f, t), Rest(f, t), k - n, w);
    }
  }

  lemma RestIsLocal(f: bool, t: string, w: string)
    requires EndsInStop(t) && Length(NextToken(f, t)) < |t| && NextToken(f, t + w) == NextToken(f, t)
    ensures Rest(f, t + w) == Rest(f, t) + w && BeforeRest(f, t + w) == BeforeRest(f, t) && EndsInStop(Rest(f, t))
    ensures Image(NextToken(f, t), t + w) == Image(NextToken(f, t), t)
  {
    hide NextToken;
  }

  /** Two continuations that redact alike from a position on redact alike from the start. */
  lemma SameBehindPosition(f: bool, t: string, k: nat, v: string, w: string)
    requires EndsInStop(t) && k < |t| && StandsAt(f, t, k)
    requires Redacted(FlagAt(f, t, k), t[k..] + v) == Redacted(FlagAt(f, t, k), t[k..] + w)
    ensures Redacted(f, t + v) == Redacted(f, t + w)
  {
    hide NextToken, Redacted, StandsAt, Written;
    PositionIsLocal(f, t, k, v);
    PositionIsLocal(f, t, k, w);
    RedactedSplit(f, t + v, k);
    RedactedSplit(f, t + w, k);
    assert (t + v)[k..] == t[k..] + v && (t + w)[k..] == t[k..] + w;
    assert FlagAt(f, t + v, k) == FlagAt(f, t + w, k) == FlagAt(f, t, k);
  }
}
