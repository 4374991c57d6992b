/**
 * Character classes and small scanners standing in for the parts of Python's
 * `str` and `re` behaviour that the .dat file operations rely on:
 * whitespace as `str.isspace()` and `\s` see it, `str.strip()`, the
 * substring test `in`, and the number token `[-+]?\d*\.?\d+`.
 */
module Text {
  import opened Wrappers

  /** Python's whitespace: the characters for which `str.isspace()` holds, which are also those `\s` matches in a `str` pattern. */
  predicate IsSpace(c: char) {
    || c == ' '
    || ('\t' <= c <= '\r')
    || ('\U{1C}' <= c <= '\U{1F}')
    || c == '\U{85}' || c == '\U{A0}' || c == '\U{1680}'
    || ('\U{2000}' <= c <= '\U{200A}')
    || c == '\U{2028}' || c == '\U{2029}' || c == '\U{202F}' || c == '\U{205F}' || c == '\U{3000}'
  }

  /** `\d`, on ASCII digits. */
  predicate IsDigit(c: char) {
    '0' <= c <= '9'
  }

  predicate IsSign(c: char) {
    c == '-' || c == '+'
  }

  predicate AllSpaces(w: string) {
    forall i :: 0 <= i < |w| ==> IsSpace(w[i])
  }

  predicate AllDigits(w: string) {
    forall i :: 0 <= i < |w| ==> IsDigit(w[i])
  }

  /** What `[^\s]+` matches: a non-empty run without whitespace. */
  predicate IsToken(w: string) {
    |w| > 0 && forall i :: 0 <= i < |w| ==> !IsSpace(w[i])
  }

  /** ASCII case-insensitive comparison of one character with an upper-case letter. */
  predicate LetterCi(c: char, upper: char) {
    c == upper || c as int == upper as int + 32
  }

  /** `w` spells the upper-case word `kw`, ignoring ASCII case. */
  predicate WordCi(w: string, kw: string) {
    |w| == |kw| && forall i :: 0 <= i < |w| ==> LetterCi(w[i], kw[i])
  }

  predicate StartsWith(s: string, prefix: string) {
    |prefix| <= |s| && s[..|prefix|] == prefix
  }

  predicate OccursAt(s: string, pattern: string, i: int) {
    0 <= i && i + |pattern| <= |s| && s[i..i + |pattern|] == pattern
  }

  /** Python's `pattern in s`. */
  predicate Contains(s: string, pattern: string) {
    exists i | 0 <= i <= |s| - |pattern| :: OccursAt(s, pattern, i)
  }

  /** Length of the longest prefix of `s` whose characters all satisfy `p`. */
  function Span(s: string, p: char -> bool): (n: nat)
    ensures n <= |s|
    ensures forall i :: 0 <= i < n ==> p(s[i])
    ensures n < |s| ==> !p(s[n])
  {
    if |s| > 0 && p(s[0]) then 1 + Span(s[1..], p) else 0
  }

  /** The span is the only length with the two properties of its contract. */
  lemma SpanIs(s: string, p: char -> bool, n: nat)
    requires n <= |s|
    requires forall i :: 0 <= i < n ==> p(s[i])
    requires n < |s| ==> !p(s[n])
    ensures Span(s, p) == n
  {
  }

  /** The whitespace span of `s` is all whitespace. */
  lemma SpacesOfSpan(s: string)
    ensures AllSpaces(s[..Span(s, IsSpace)])
  {
    var n := Span(s, IsSpace);
    forall i | 0 <= i < n
      ensures IsSpace(s[..n][i])
    {
      assert s[..n][i] == s[i];
    }
  }

  /** `s.lstrip()`. */
  function TrimStart(s: string): (r: string)
    ensures |r| <= |s| && r == s[|s| - |r|..]
    ensures AllSpaces(s[..|s| - |r|])
    ensures r != [] ==> !IsSpace(r[0])
  {
    s[Span(s, IsSpace)..]
  }

  /** `s.rstrip()`. */
  function TrimEnd(s: string): (r: string)
    ensures |r| <= |s| && r == s[..|r|]
    ensures AllSpaces(s[|r|..])
    ensures r != [] ==> !IsSpace(r[|r| - 1])
  {
    if |s| > 0 && IsSpace(s[|s| - 1]) then
      var r := TrimEnd(s[..|s| - 1]);
      assert s[|r|..] == s[..|s| - 1][|r|..] + [s[|s| - 1]];
      r
    else s
  }

  /** `s.strip()`: the slice of `s` left once leading and trailing whitespace is removed. */
  function Strip(s: string): (r: string)
    ensures r != [] ==> !IsSpace(r[0]) && !IsSpace(r[|r| - 1])
    ensures |r| <= |TrimStart(s)| && r == s[|s| - |TrimStart(s)|..|s| - |TrimStart(s)| + |r|]
    ensures AllSpaces(s[..|s| - |TrimStart(s)|]) && AllSpaces(s[|s| - |TrimStart(s)| + |r|..])
  {
    TrimEnd(TrimStart(s))
  }

  /** Strip ignores one trailing line break. */
  lemma StripLine(s: string)
    requires s != [] ==> !IsSpace(s[0]) && !IsSpace(s[|s| - 1])
    ensures Strip(s + "\n") == s
  {
    var t := s + "\n";
    if s == [] {
      SpanIs(t, IsSpace, 1);
    } else {
      SpanIs(t, IsSpace, 0);
      assert t[..|t| - 1] == s;
    }
  }

  // ---------------------------------------------------------------------------
  // The number token [-+]?\d*\.?\d+

  /** `\d*\.?\d+` as a language: digits, or digits, a point and at least one digit. */
  predicate IsUnsignedNumber(w: string) {
    || (|w| > 0 && AllDigits(w))
    || (exists k | 0 <= k < |w| - 1 :: w[k] == '.' && AllDigits(w[..k]) && AllDigits(w[k + 1..]))
  }

  /** `[-+]?\d*\.?\d+` as a language. */
  predicate IsNumber(w: string) {
    IsUnsignedNumber(w) || (|w| > 0 && IsSign(w[0]) && IsUnsignedNumber(w[1..]))
  }

  /** 1 when `t` starts with a sign, else 0: how much `[-+]?` takes. */
  function SignLength(t: string): (n: nat)
    ensures n <= |t|
  {
    if |t| > 0 && IsSign(t[0]) then 1 else 0
  }

  /**
   * The length of the text that `[-+]?\d*\.?\d+` matches at the start of `t`
   * under the backtracking order of Python's `re`, or None when it does not match.
   */
  function NumberLength(t: string): (r: Option<nat>)
    ensures r.Some? ==> 0 < r.value <= |t|
  {
    var sg := SignLength(t);
    var d1 := Span(t[sg..], IsDigit);
    var j := sg + d1;
    if j < |t| && t[j] == '.' && Span(t[j + 1..], IsDigit) > 0 then
      Some(j + 1 + Span(t[j + 1..], IsDigit))
    else if d1 > 0 then
      Some(j)
    else
      None
  }

  /** The span of a prefix is the span of the whole, cut at the prefix's length. */
  lemma SpanOfPrefix(s: string, p: char -> bool, n: nat)
    requires n <= |s|
    ensures Span(s[..n], p) == if n <= Span(s, p) then n else Span(s, p)
  {
    var k := if n <= Span(s, p) then n else Span(s, p);
    assert forall i :: 0 <= i < k ==> s[..n][i] == s[i];
    SpanIs(s[..n], p, k);
  }

  /** In an unsigned number the point, if any, is the first character that is not a digit. */
  lemma UnsignedShape(u: string)
    requires IsUnsignedNumber(u)
    ensures var d := Span(u, IsDigit);
            || (d == |u| && d > 0)
            || (d < |u| - 1 && u[d] == '.' && AllDigits(u[d + 1..]))
  {
    if |u| > 0 && AllDigits(u) {
      SpanIs(u, IsDigit, |u|);
    } else {
      var k :| 0 <= k < |u| - 1 && u[k] == '.' && AllDigits(u[..k]) && AllDigits(u[k + 1..]);
      assert AllDigits(u[..k]);
      assert !IsDigit(u[k]);
      DigitSpanIs(u, k);
    }
  }

  /** The digit span of `s` ends at the first non-digit after a run of digits. */
  lemma DigitSpanIs(s: string, n: nat)
    requires n < |s| && AllDigits(s[..n]) && !IsDigit(s[n])
    ensures Span(s, IsDigit) == n
  {
    forall i | 0 <= i < n
      ensures IsDigit(s[i])
    {
      assert s[..n][i] == s[i];
    }
    SpanIs(s, IsDigit, n);
  }

  /** An unsigned number starts with a digit or a point. */
  lemma UnsignedStart(u: string)
    requires IsUnsignedNumber(u)
    ensures |u| > 0 && (IsDigit(u[0]) || u[0] == '.')
  {
    UnsignedShape(u);
  }

  /** What a signed number leaves once its sign is taken off. */
  lemma UnsignedPart(t: string, m: nat)
    requires m <= |t| && IsNumber(t[..m])
    ensures SignLength(t) <= m && IsUnsignedNumber(t[SignLength(t)..m])
  {
    var w := t[..m];
    if SignLength(t) == 1 {
      if IsUnsignedNumber(w) {
        UnsignedStart(w);
        assert false;
      }
      assert w[1..] == t[1..m];
    } else {
      assert IsUnsignedNumber(w);
      assert w == t[0..m];
    }
  }

  /** A run of digits inside `s` bounds the span that starts where the run does. */
  lemma SpanCovers(s: string, i: nat, m: nat)
    requires i <= m <= |s| && AllDigits(s[i..m])
    ensures Span(s[i..], IsDigit) >= m - i
  {
  }

  /** Every prefix of `t` that is a number is no longer than what the scanner returns. */
  lemma NumberPrefixBound(t: string, m: nat)
    requires m <= |t| && IsNumber(t[..m])
    ensures NumberLength(t).Some? && m <= NumberLength(t).value
  {
    UnsignedPart(t, m);
    var u := t[SignLength(t)..m];
    UnsignedShape(u);
    if Span(u, IsDigit) == |u| {
      DigitsPrefixBound(t, m);
    } else {
      PointPrefixBound(t, m);
    }
  }

  /** A prefix that is a sign and digits only is no longer than what the scanner returns. */
  lemma DigitsPrefixBound(t: string, m: nat)
    requires SignLength(t) < m <= |t| && Span(t[SignLength(t)..m], IsDigit) == m - SignLength(t)
    ensures NumberLength(t).Some? && m <= NumberLength(t).value
  {
    var sg := SignLength(t);
    var big := t[sg..];
    assert t[sg..m] == big[..m - sg];
    SpanOfPrefix(big, IsDigit, m - sg);
  }

  /** A prefix that is a sign, digits, a point and digits is no longer than what the scanner returns. */
  lemma PointPrefixBound(t: string, m: nat)
    requires SignLength(t) <= m <= |t|
    requires var u := t[SignLength(t)..m];
             var d := Span(u, IsDigit);
             d < |u| - 1 && u[d] == '.' && AllDigits(u[d + 1..])
    ensures NumberLength(t).Some? && m <= NumberLength(t).value
  {
    var sg := SignLength(t);
    var big := t[sg..];
    var u := t[sg..m];
    var d1 := Span(big, IsDigit);
    assert u == big[..m - sg];
    SpanOfPrefix(big, IsDigit, m - sg);
    assert Span(u, IsDigit) == d1;
    assert u[d1] == t[sg + d1];
    DigitsAfterPoint(t, sg, m, d1);
    PointCase(t, sg + d1, m);
  }

  /** The digits after the point of `t[sg..m]`, as a slice of `t`. */
  lemma DigitsAfterPoint(t: string, sg: nat, m: nat, d: nat)
    requires sg + d + 1 <= m <= |t| && AllDigits(t[sg..m][d + 1..])
    ensures AllDigits(t[sg + d + 1..m])
  {
    assert t[sg..m][d + 1..] == t[sg + d + 1..m];
  }

  /** A point right after the scanned sign and digits, then digits up to `m`: the scanner reaches `m`. */
  lemma PointCase(t: string, j: nat, m: nat)
    requires j + 1 < m <= |t| && t[j] == '.' && AllDigits(t[j + 1..m])
    requires j == SignLength(t) + Span(t[SignLength(t)..], IsDigit)
    ensures NumberLength(t).Some? && m <= NumberLength(t).value
  {
    SpanCovers(t, j + 1, m);
  }

  /** `a.b` is an unsigned number when `a` is all digits and `b` is a non-empty run of digits. */
  lemma UnsignedWithPoint(a: string, b: string)
    requires AllDigits(a) && AllDigits(b) && |b| > 0
    ensures IsUnsignedNumber(a + "." + b)
  {
    var w := a + "." + b;
    assert w[..|a|] == a && w[|a|] == '.' && w[|a| + 1..] == b;
  }

  /** A slice with a point inside is the text before the point, the point and the text after it. */
  lemma PointSplit(t: string, a: nat, j: nat, n: nat)
    requires a <= j < n <= |t| && t[j] == '.'
    ensures t[a..n] == t[a..j] + "." + t[j + 1..n]
  {
  }

  /** The text the scanner returns is a number. */
  lemma NumberLengthIsNumber(t: string)
    requires NumberLength(t).Some?
    ensures NumberLength(t).value <= |t| && IsNumber(t[..NumberLength(t).value])
  {
    var sg := SignLength(t);
    var n := NumberLength(t).value;
    var u := t[sg..n];
    ScannedUnsigned(t);
    if sg == 1 {
      assert t[..n][1..] == u;
    } else {
      assert t[..n] == u;
    }
  }

  /** What the scanner returns after the sign is an unsigned number. */
  lemma ScannedUnsigned(t: string)
    requires NumberLength(t).Some?
    ensures SignLength(t) <= NumberLength(t).value <= |t|
    ensures IsUnsignedNumber(t[SignLength(t)..NumberLength(t).value])
  {
    var sg := SignLength(t);
    var big := t[sg..];
    var d1 := Span(big, IsDigit);
    var j := sg + d1;
    var n := NumberLength(t).value;
    assert AllDigits(t[sg..j]) by {
      assert t[sg..j] == big[..d1];
    }
    if j < |t| && t[j] == '.' && Span(t[j + 1..], IsDigit) > 0 {
      var rest := t[j + 1..];
      var d2 := Span(rest, IsDigit);
      assert AllDigits(t[j + 1..n]) by {
        assert t[j + 1..n] == rest[..d2];
      }
      UnsignedWithPoint(t[sg..j], t[j + 1..n]);
      PointSplit(t, sg, j, n);
    } else {
      assert n == j && d1 > 0;
    }
  }

  /**
   * The scanner returns the longest prefix of `t` in the language `[-+]?\d*\.?\d+`,
   * and returns None exactly when no prefix is in it.
   */
  lemma NumberLengthIsLongestMatch(t: string)
    ensures NumberLength(t).Some? ==>
              && NumberLength(t).value <= |t|
              && IsNumber(t[..NumberLength(t).value])
              && forall m :: NumberLength(t).value < m <= |t| ==> !IsNumber(t[..m])
    ensures NumberLength(t).None? ==> forall m :: 0 <= m <= |t| ==> !IsNumber(t[..m])
  {
    forall m | 0 <= m <= |t| && IsNumber(t[..m])
      ensures NumberLength(t).Some? && m <= NumberLength(t).value
    {
      NumberPrefixBound(t, m);
    }
    if NumberLength(t).Some? {
      NumberLengthIsNumber(t);
    }
  }

  /** An unsigned number is made of digits and points. */
  lemma UnsignedChars(u: string)
    requires IsUnsignedNumber(u)
    ensures forall i :: 0 <= i < |u| ==> IsDigit(u[i]) || u[i] == '.'
  {
    if !(|u| > 0 && AllDigits(u)) {
      var k :| 0 <= k < |u| - 1 && u[k] == '.' && AllDigits(u[..k]) && AllDigits(u[k + 1..]);
      forall i | 0 <= i < |u|
        ensures IsDigit(u[i]) || u[i] == '.'
      {
        if i < k {
          assert u[i] == u[..k][i];
        } else if i > k {
          assert u[i] == u[k + 1..][i - k - 1];
        }
      }
    }
  }

  /** A number has no whitespace in it. */
  lemma NumberIsToken(w: string)
    requires IsNumber(w)
    ensures IsToken(w)
  {
    if IsUnsignedNumber(w) {
      UnsignedChars(w);
    } else {
      UnsignedChars(w[1..]);
      assert forall i :: 1 <= i < |w| ==> w[i] == w[1..][i - 1];
    }
  }

  /** A number followed by whitespace (or by nothing) is matched exactly. */
  lemma NumberLengthOfDelimited(v: string, rest: string)
    requires IsNumber(v)
    requires rest == [] || IsSpace(rest[0])
    ensures NumberLength(v + rest) == Some(|v|)
  {
    var t := v + rest;
    assert t[..|v|] == v;
    NumberLengthIsLongestMatch(t);
    forall m | |v| < m <= |t|
      ensures !IsNumber(t[..m])
    {
      assert t[..m][|v|] == rest[0];
      if IsNumber(t[..m]) {
        NumberIsToken(t[..m]);
      }
    }
  }

  // ---------------------------------------------------------------------------
  // Decimal text of integers, as Python's str(int)

  function DigitChar(d: nat): (c: char)
    requires d < 10
    ensures IsDigit(c)
  {
    (48 + d) as char
  }

  function NatText(n: nat): (r: string)
    ensures |r| > 0 && AllDigits(r)
    ensures n < 10 <==> |r| == 1
    decreases n
  {
    if n < 10 then [DigitChar(n)] else NatText(n / 10) + [DigitChar(n % 10)]
  }

  /** `str(n)` for an int `n`. */
  function IntText(n: int): (r: string)
    ensures IsToken(r)
    ensures (n < 0) <==> r[0] == '-'
  {
    if n < 0 then "-" + NatText(-n) else NatText(n)
  }

  lemma {:induction false} NatTextInjective(a: nat, b: nat)
    requires NatText(a) == NatText(b)
    ensures a == b
    decreases a
  {
    if a >= 10 {
      var ta, tb := NatText(a / 10), NatText(b / 10);
      assert NatText(a)[..|ta|] == ta;
      assert NatText(b)[..|tb|] == tb;
      NatTextInjective(a / 10, b / 10);
    }
  }

  /** Two different node numbers never print the same. */
  lemma IntTextInjective(a: int, b: int)
    requires IntText(a) == IntText(b)
    ensures a == b
  {
    if a < 0 {
      assert IntText(a)[1..] == NatText(-a);
      assert IntText(b)[1..] == NatText(-b);
      NatTextInjective(-a, -b);
    } else {
      NatTextInjective(a, b);
    }
  }
}
