/** What the scanner of go/internal/infrastructure/history/redact.go makes of a literal, and that its content does not
    show. */
module LiteralContents {
  import opened Redaction
  import opened RedactionProperties
  import opened ScannerPositions

  /** What follows does not double the closing quote. */
  predicate Follows(s: string)
  {
    s == "" || s[0] != '\''
  }

  /** The content of a plain string literal: its quotes are doubled. */
  function Doubled(u: string): string
  {
    if u == "" then ""
    else (if u[0] == '\'' then "''" else [u[0]]) + Doubled(u[1..])
  }

  lemma {:induction false} DoubledEnds(u: string, s: string)
    requires Follows(s)
    ensures QuotedTail(Doubled(u) + ("'" + s)) == |Doubled(u)| + 1
  {
    var t := Doubled(u) + ("'" + s);
    if u == "" {
      assert t == "'" + s;
    } else {
      var rest := Doubled(u[1..]) + ("'" + s);
      DoubledEnds(u[1..], s);
      if u[0] == '\'' {
        assert t[2..] == rest;
      } else {
        assert t[1..] == rest;
      }
    }
  }

  /** The delimiter of a dollar-quoted literal. */
  function Delimiter(tag: string): string
  {
    ("$" + tag) + "$"
  }

  /** A tag the scanner knows. */
  predicate IsPlainTag(tag: string)
  {
    !StartsWithDigit(tag) && forall k :: 0 <= k < |tag| ==> IsIdentChar(tag[k])
  }

  // ----- A literal becomes the mask

  /** A masked token that ends in a delimiter leaves the mask, and the scan goes on behind it. */
  lemma MaskedAway(afterIdent: bool, t: string, n: nat, s: string)
    requires 0 < n <= |t| && NextToken(afterIdent, t) == Masked(n)
    requires t[n..] == s && !IsIdentChar(t[n - 1])
    ensures Redacted(afterIdent, t) == MASK + Redacted(false, s)
  {
    hide NextToken, Redacted;
    RedactedNext(afterIdent, t);
    assert Rest(afterIdent, t) == s && !BeforeRest(afterIdent, t);
  }

  /** Where a quoted content begins and ends behind a head. */
  lemma Quoted(head: string, u: string, s: string)
    ensures var content := Doubled(u) + ("'" + s);
            var t, n := head + content, |head| + |Doubled(u)| + 1;
            t[|head|..] == content && t[n..] == s && t[n - 1] == '\''
  {
  }

  /** A plain literal with any content redacts to the mask, and the scan goes on behind it. */
  lemma LiteralIsMasked(afterIdent: bool, u: string, s: string)
    requires Follows(s)
    ensures Redacted(afterIdent, "'" + (Doubled(u) + ("'" + s))) == MASK + Redacted(false, s)
  {
    var content := Doubled(u) + ("'" + s);
    var t := "'" + content;
    DoubledEnds(u, s);
    Quoted("'", u, s);
    MaskedAway(afterIdent, t, |Doubled(u)| + 2, s);
  }

  lemma QuotedIsMasked(c: string, s: string)
    requires QuotedTail(c + ("'" + s)) == |c| + 1
    ensures Redacted(false, "'" + (c + ("'" + s))) == MASK + Redacted(false, s)
  {
    hide Redacted;
    var t := "'" + (c + ("'" + s));
    assert t[1..] == c + ("'" + s) && t[|c| + 2..] == s && t[|c| + 1] == '\'';
    MaskedAway(false, t, |c| + 2, s);
  }

  lemma PrefixedIsMasked(prefix: char, content: string, s: string)
    requires IsStringPrefix(prefix)
    requires content != "" && content[QuotedTail(content)..] == s && content[QuotedTail(content) - 1] == '\''
    ensures Redacted(false, [prefix] + ("'" + content)) == MASK + Redacted(false, s)
  {
    var t, n := [prefix] + ("'" + content), 2 + QuotedTail(content);
    assert t[2..] == content && t[0] == prefix && t[1] == '\'';
    assert NextToken(false, t) == Masked(n) && t[n..] == s && t[n - 1] == '\'';
    MaskedAway(false, t, n, s);
  }

  /** E'...', X'...' and B'...' end where the plain string would: a backslash in front of a quote does not matter. */
  lemma PrefixedLiteralIsMasked(prefix: char, u: string, s: string)
    requires IsStringPrefix(prefix) && Follows(s)
    ensures Redacted(false, [prefix] + ("'" + (Doubled(u) + ("'" + s)))) == MASK + Redacted(false, s)
  {
    DoubledEnds(u, s);
    Quoted("", u, s);
    PrefixedIsMasked(prefix, Doubled(u) + ("'" + s), s);
  }

  /** A dollar-quoted literal redacts to the mask whatever it contains before its first closing delimiter. */
  lemma DollarLiteralIsMasked(afterIdent: bool, tag: string, u: string, s: string)
    requires IsPlainTag(tag) && IndexOf(u + (Delimiter(tag) + s), Delimiter(tag)) == |u|
    ensures Redacted(afterIdent, Delimiter(tag) + (u + (Delimiter(tag) + s))) == MASK + Redacted(false, s)
  {
    hide Redacted;
    var d := Delimiter(tag);
    var t, n := d + (u + (d + s)), |d| + |u| + |d|;
    DollarOpens(afterIdent, tag, u + (d + s));
    assert t[n..] == s && t[n - 1] == '$';
    MaskedAway(afterIdent, t, n, s);
  }

  lemma DollarOpens(f: bool, tag: string, body: string)
    requires IsPlainTag(tag)
    ensures var t, close := Delimiter(tag) + body, IndexOf(body, Delimiter(tag));
            NextToken(f, t) == Masked(if close == -1 then |t| else |Delimiter(tag)| + close + |Delimiter(tag)|)
  {
    hide IndexOf, Run;
    var d := Delimiter(tag);
    var t := d + body;
    assert t[1..] == tag + ("$" + body);
    RunOfAll(IsIdentChar, tag, "$" + body);
    assert t[..|d|] == d && t[|d|..] == body && t[|tag| + 1] == '$';
    assert |t| > 1 && !IsDigit(t[1]);
  }

  // ----- A query cut short inside a literal

  lemma {:induction false} DoubledNeverEnds(u: string)
    ensures QuotedTail(Doubled(u)) == |Doubled(u)|
  {
    if u != "" {
      DoubledNeverEnds(u[1..]);
      if u[0] == '\'' {
        assert Doubled(u)[2..] == Doubled(u[1..]);
      } else {
        assert Doubled(u)[1..] == Doubled(u[1..]);
      }
    }
  }

  /** A token that takes everything leaves the mask. */
  lemma MaskedToTheEnd(f: bool, t: string)
    requires t != "" && NextToken(f, t) == Masked(|t|)
    ensures Redacted(f, t) == MASK
  {
    hide NextToken;
    assert t[|t|..] == "";
  }

  lemma CutPlainIsMasked(f: bool, content: string)
    requires QuotedTail(content) == |content|
    ensures Redacted(f, "'" + content) == MASK
  {
    hide Redacted;
    assert ("'" + content)[1..] == content;
    MaskedToTheEnd(f, "'" + content);
  }

  lemma CutPrefixedIsMasked(prefix: char, content: string)
    requires IsStringPrefix(prefix) && QuotedTail(content) == |content|
    ensures Redacted(false, [prefix] + ("'" + content)) == MASK
  {
    hide Redacted;
    var t := [prefix] + ("'" + content);
    assert t[0] == prefix && t[1] == '\'' && t[2..] == content;
    MaskedToTheEnd(false, t);
  }

  lemma CutDollarIsMasked(f: bool, tag: string, content: string)
    requires IsPlainTag(tag) && IndexOf(content, Delimiter(tag)) == -1
    ensures Redacted(f, Delimiter(tag) + content) == MASK
  {
    hide Redacted, NextToken;
    DollarOpens(f, tag, content);
    MaskedToTheEnd(f, Delimiter(tag) + content);
  }

  // ----- What a literal contained does not show

  /** The scanner stands at top level behind p when the opening of a literal follows. */
  predicate AtTopLevel(p: string, opening: string)
  {
    StandsAt(false, p + opening, |p|)
  }

  lemma SameBehindOpening(p: string, opening: string, v: string, w: string)
    requires EndsInStop(opening) && AtTopLevel(p, opening)
    requires Redacted(FlagAt(false, p, |p|), opening + v) == Redacted(FlagAt(false, p, |p|), opening + w)
    ensures Redact(p + (opening + v)) == Redact(p + (opening + w))
  {
    hide Redacted, StandsAt;
    var t := p + opening;
    assert t[|p|..] == opening && FlagAt(false, t, |p|) == FlagAt(false, p, |p|);
    SameBehindPosition(false, t, |p|, v, w);
    assert p + (opening + v) == t + v && p + (opening + w) == t + w;
  }

  /** Whatever a plain string literal contains, quotes included, the redacted query is the same. */
  lemma ContentDoesNotShow(p: string, u: string, v: string, s: string)
    requires AtTopLevel(p, "'") && Follows(s)
    ensures Redact(p + ("'" + (Doubled(u) + ("'" + s)))) == Redact(p + ("'" + (Doubled(v) + ("'" + s))))
  {
    hide Redacted, StandsAt, Doubled;
    LiteralIsMasked(FlagAt(false, p, |p|), u, s);
    LiteralIsMasked(FlagAt(false, p, |p|), v, s);
    SameBehindOpening(p, "'", Doubled(u) + ("'" + s), Doubled(v) + ("'" + s));
  }

  /** The same for E, X and B strings, quotes doubled. */
  lemma PrefixedContentDoesNotShow(p: string, prefix: char, u: string, v: string, s: string)
    requires IsStringPrefix(prefix) && AtTopLevel(p, [prefix] + "'") && !FlagAt(false, p, |p|) && Follows(s)
    ensures Redact(p + (([prefix] + "'") + (Doubled(u) + ("'" + s))))
         == Redact(p + (([prefix] + "'") + (Doubled(v) + ("'" + s))))
  {
    hide Redacted, StandsAt, Doubled;
    PrefixedLiteralIsMasked(prefix, u, s);
    PrefixedLiteralIsMasked(prefix, v, s);
    OpeningRegroup(prefix, Doubled(u) + ("'" + s));
    OpeningRegroup(prefix, Doubled(v) + ("'" + s));
    SameBehindOpening(p, [prefix] + "'", Doubled(u) + ("'" + s), Doubled(v) + ("'" + s));
  }

  lemma OpeningRegroup(prefix: char, s: string)
    ensures ([prefix] + "'") + s == [prefix] + ("'" + s)
  {
  }

  /** The same for dollar-quoted literals, whose content does not hold the delimiter. */
  lemma DollarContentDoesNotShow(p: string, tag: string, u: string, v: string, s: string)
    requires IsPlainTag(tag) && AtTopLevel(p, Delimiter(tag))
    requires IndexOf(u + (Delimiter(tag) + s), Delimiter(tag)) == |u|
    requires IndexOf(v + (Delimiter(tag) + s), Delimiter(tag)) == |v|
    ensures Redact(p + (Delimiter(tag) + (u + (Delimiter(tag) + s))))
         == Redact(p + (Delimiter(tag) + (v + (Delimiter(tag) + s))))
  {
    hide Redacted, StandsAt, IndexOf;
    DollarLiteralIsMasked(FlagAt(false, p, |p|), tag, u, s);
    DollarLiteralIsMasked(FlagAt(false, p, |p|), tag, v, s);
    SameBehindOpening(p, Delimiter(tag), u + (Delimiter(tag) + s), v + (Delimiter(tag) + s));
  }
}
