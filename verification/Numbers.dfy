/** The numeric literals that the comments of go/internal/infrastructure/history/redact.go list, as a grammar of their
    own, and that the scanner takes the longest one a text begins with. */
module Numbers {
  import opened Redaction
  import opened RedactionProperties

  // ----- The grammar

  predicate IsDecimalDigit(c: char)
  {
    '0' <= c <= '9'
  }

  predicate InRadixDigits(c: char)
  {
    '0' <= c <= '9' || 'a' <= c <= 'f' || 'A' <= c <= 'F' || c == '_'
  }

  predicate InMantissa(c: char)
  {
    '0' <= c <= '9' || c == '.' || c == '_'
  }

  /** 0x1F, 0o17, 0b1010, digit separators included. */
  predicate IsRadixNumber(x: string)
  {
    && |x| >= 2 && x[0] == '0' && x[1] in "xXoObB"
    && forall k :: 2 <= k < |x| ==> InRadixDigits(x[k])
  }

  /** 42, 1_000, 3.14: a number without its exponent. */
  predicate IsMantissa(x: string)
  {
    x != "" && IsDecimalDigit(x[0]) && forall k :: 0 <= k < |x| ==> InMantissa(x[k])
  }

  predicate IsExponentMark(e: char)
  {
    e == 'e' || e == 'E'
  }

  /** e10, E-7. */
  predicate IsExponent(x: string)
  {
    && |x| >= 2 && IsExponentMark(x[0])
    && var digits := if x[1] == '+' || x[1] == '-' then 2 else 1;
       digits < |x| && forall k :: digits <= k < |x| ==> IsDecimalDigit(x[k])
  }

  predicate IsNumber(x: string)
  {
    || IsRadixNumber(x)
    || IsMantissa(x)
    || exists j :: 0 < j < |x| && IsMantissa(x[..j]) && IsExponent(x[j..])
  }

  /** The length of the longest number among the first n characters or fewer, 0 if there is none. */
  function LongestNumber(t: string, n: nat): (longest: nat)
    requires n <= |t|
    ensures longest <= n && (n > 0 && IsDecimalDigit(t[0]) ==> longest > 0)
  {
    assert n == 1 && IsDecimalDigit(t[0]) ==> IsMantissa(t[..1]);
    if n == 0 || IsNumber(t[..n]) then n else LongestNumber(t, n - 1)
  }

  // ----- The scanner takes the longest number

  lemma {:induction false} LongestIs(t: string, length: nat, n: nat)
    requires 0 < length <= n <= |t| && IsNumber(t[..length])
    requires forall m :: length < m <= n ==> !IsNumber(t[..m])
    ensures LongestNumber(t, n) == length
  {
    hide IsNumber;
    if n > length {
      LongestIs(t, length, n - 1);
    }
  }

  lemma SameClasses(c: char)
    ensures IsDecimalDigit(c) <==> IsDigit(c)
    ensures InRadixDigits(c) <==> InRadixNumber(c)
    ensures InMantissa(c) <==> InDecimalNumber(c)
    ensures c in "xXoObB" <==> IsRadixPrefix(c)
    ensures IsExponentMark(c) <==> c == 'e' || c == 'E'
  {
  }

  predicate StartsRadix(t: string)
  {
    |t| > 1 && t[0] == '0' && IsRadixPrefix(t[1])
  }

  lemma RadixIsNumber(t: string)
    requires StartsRadix(t)
    ensures IsRadixNumber(t[..NumericLength(t)])
    ensures forall m :: NumericLength(t) < m <= |t| ==> !IsNumber(t[..m])
  {
    hide Run;
    var n := NumericLength(t);
    forall k | 2 <= k < n
      ensures InRadixDigits(t[k])
    {
      assert t[k] == t[2..][k - 2];
    }
    forall m | n < m <= |t|
      ensures !IsNumber(t[..m])
    {
      assert t[n] == t[2..][n - 2] && !InRadixDigits(t[n]);
      assert t[..m][n] == t[n] && t[..m][1] == t[1];
      forall j | 0 < j < m
        ensures !(IsMantissa(t[..m][..j]) && IsExponent(t[..m][j..]))
      {
        assert if j == 1 then t[..m][j..][0] == t[1] else t[..m][..j][1] == t[1];
      }
    }
  }

  lemma MantissaIsNumber(t: string)
    requires t != "" && IsDigit(t[0])
    ensures 0 < Run(InDecimalNumber, t) && IsMantissa(t[..Run(InDecimalNumber, t)])
    ensures forall m :: 0 < m <= |t| ==> (IsMantissa(t[..m]) <==> m <= Run(InDecimalNumber, t))
  {
    var j := Run(InDecimalNumber, t);
    forall m | j < m <= |t|
      ensures !IsMantissa(t[..m])
    {
      assert t[..m][j] == t[j];
    }
  }

  /** An exponent behind the mantissa, up to a length. */
  lemma ExponentIsNumber(t: string, j: nat, m: nat)
    requires 0 < j < m <= |t|
    ensures IsExponent(t[j..m]) <==> ExponentDigits(t, j) < m <= WithExponent(t, j)
  {
    hide Run;
    var k := ExponentDigits(t, j);
    assert t[j..m][0] == t[j] && (j + 1 < m ==> t[j..m][1] == t[j + 1]);
    assert forall i :: j <= i < m ==> t[j..m][i - j] == t[i];
    assert forall i :: k <= i < |t| ==> t[k..][i - k] == t[i];
    if k < m && IsExponentMark(t[j]) {
      var n := k + Run(IsDigit, t[k..]);
      if m <= n {
        assert forall i :: k - j <= i < m - j ==> t[j..m][i] == t[i + j] == t[k..][i + j - k];
      } else {
        assert t[j..m][n - j] == t[n] == t[k..][n - k];
      }
    }
  }

  lemma DecimalIsNumber(t: string)
    requires t != "" && IsDigit(t[0]) && !StartsRadix(t)
    ensures IsNumber(t[..NumericLength(t)])
    ensures forall m :: NumericLength(t) < m <= |t| ==> !IsNumber(t[..m])
  {
    hide Run, IsMantissa, IsExponent;
    var j, n := Run(InDecimalNumber, t), NumericLength(t);
    MantissaIsNumber(t);
    if n > j {
      ExponentIsNumber(t, j, n);
      assert t[..n][..j] == t[..j] && t[..n][j..] == t[j..n];
    }
    forall m | n < m <= |t|
      ensures !IsNumber(t[..m])
    {
      NothingLonger(t, m);
    }
  }

  lemma NothingLonger(t: string, m: nat)
    requires t != "" && IsDigit(t[0]) && !StartsRadix(t) && NumericLength(t) < m <= |t|
    ensures !IsNumber(t[..m])
  {
    hide Run, IsMantissa, IsExponent;
    var j := Run(InDecimalNumber, t);
    MantissaIsNumber(t);
    assert t[..m][0] == t[0] && (m > 1 ==> t[..m][1] == t[1]);
    forall i | 0 < i < m
      ensures !(IsMantissa(t[..m][..i]) && IsExponent(t[..m][i..]))
    {
      assert t[..m][..i] == t[..i] && t[..m][i..] == t[i..m];
      ExponentIsNumber(t, i, m);
      MantissaStopsAtMark(t, i, m);
    }
  }

  /** In front of an exponent mark the mantissa is as long as it can be. */
  lemma MantissaStopsAtMark(t: string, i: nat, m: nat)
    requires t != "" && IsDigit(t[0]) && 0 < i < m <= |t|
    ensures IsMantissa(t[..i]) && IsExponent(t[i..m]) ==> i == Run(InDecimalNumber, t)
  {
    MantissaIsNumber(t);
    assert t[i..m][0] == t[i];
    assert i < Run(InDecimalNumber, t) ==> InDecimalNumber(t[i]);
  }

  /** At a digit the scanner takes the longest number that begins there. */
  lemma NumericIsLongest(t: string)
    requires t != "" && IsDigit(t[0])
    ensures NumericLength(t) == LongestNumber(t, |t|)
  {
    hide IsNumber, IsRadixNumber;
    if StartsRadix(t) {
      RadixIsNumber(t);
      RadixNumberIsNumber(t[..NumericLength(t)]);
    } else {
      DecimalIsNumber(t);
    }
    LongestIs(t, NumericLength(t), |t|);
  }

  lemma RadixNumberIsNumber(x: string)
    requires IsRadixNumber(x)
    ensures IsNumber(x)
  {
  }

  // ----- A number is masked

  /** A number at the scanner's top level that does not go on in the text behind it becomes the mask, and nothing else
      does. */
  lemma NumberIsMasked(x: string, rest: string)
    requires IsNumber(x) && forall m :: |x| < m <= |x + rest| ==> !IsNumber((x + rest)[..m])
    ensures Redacted(false, x + rest) == MASK + Redacted(IsIdentChar(x[|x| - 1]), rest)
  {
    hide Redacted, IsNumber;
    var t := x + rest;
    assert t[..|x|] == x && t[|x|..] == rest;
    NumberStartsWithDigit(x);
    NumericIsLongest(t);
    LongestIs(t, |x|, |t|);
    assert NextToken(false, t) == Masked(|x|);
    RedactedNext(false, t);
  }

  lemma NumberStartsWithDigit(x: string)
    requires IsNumber(x)
    ensures x != "" && IsDigit(x[0])
  {
    if j :| 0 < j < |x| && IsMantissa(x[..j]) && IsExponent(x[j..]) {
      assert x[..j][0] == x[0];
    }
  }

  /** Hexadecimal, octal and binary numbers do not show. */
  lemma RadixNumberIsMasked(p: char, digits: string, rest: string)
    requires p in "xXoObB"
    requires forall k :: 0 <= k < |digits| ==> InRadixDigits(digits[k])
    requires rest != "" ==> !InRadixDigits(rest[0])
    ensures Redacted(false, (['0', p] + digits) + rest) == MASK + Redacted(true, rest)
  {
    hide Redacted, NextToken;
    var x := ['0', p] + digits;
    var t := x + rest;
    assert forall k :: 2 <= k < |x| ==> x[k] == digits[k - 2];
    RadixToken(p, digits, rest);
    assert t[|x|..] == rest && IsIdentChar(x[|x| - 1]) && t[|x| - 1] == x[|x| - 1];
    RedactedNext(false, t);
  }

  lemma RadixToken(p: char, digits: string, rest: string)
    requires p in "xXoObB"
    requires forall k :: 0 <= k < |digits| ==> InRadixDigits(digits[k])
    requires rest != "" ==> !InRadixDigits(rest[0])
    ensures NextToken(false, (['0', p] + digits) + rest) == Masked(2 + |digits|)
  {
    hide Run;
    var t := (['0', p] + digits) + rest;
    assert t[0] == '0' && t[1] == p && t[2..] == digits + rest;
    RunOfAll(InRadixNumber, digits, rest);
  }
}
