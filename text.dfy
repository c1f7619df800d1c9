/**
 * The string operations the pipeline relies on: Python's `str.strip()`,
 * `int(str)` on text and `str(int)`.
 */
module Text {
  import opened Wrappers

  /** Python's `str.isspace()` for a single character. */
  predicate IsSpace(c: char) {
    || c == ' '
    || ('\t' <= c <= '\r')                  // tab, line feed, vertical tab, form feed, carriage return
    || ('\U{1C}' <= c <= '\U{1F}')          // file, group, record and unit separators
    || c == '\U{85}' || c == '\U{A0}' || c == '\U{1680}'
    || ('\U{2000}' <= c <= '\U{200A}')
    || c == '\U{2028}' || c == '\U{2029}' || c == '\U{202F}' || c == '\U{205F}' || c == '\U{3000}'
  }

  predicate AllSpace(s: string) {
    forall i :: 0 <= i < |s| ==> IsSpace(s[i])
  }

  /** Neither the first nor the last character is whitespace. */
  predicate NoOuterSpace(s: string) {
    s == [] || (!IsSpace(s[0]) && !IsSpace(s[|s| - 1]))
  }

  /** Python's `str.lstrip()`: drop the leading whitespace. */
  function TrimStart(s: string): (r: string)
    ensures |r| <= |s|
  {
    if s != [] && IsSpace(s[0]) then TrimStart(s[1..]) else s
  }

  /** Python's `str.rstrip()`: drop the trailing whitespace. */
  function TrimEnd(s: string): (r: string)
    ensures |r| <= |s|
  {
    if s != [] && IsSpace(s[|s| - 1]) then TrimEnd(s[..|s| - 1]) else s
  }

  /** Python's `str.strip()`: drop the leading and the trailing whitespace. */
  function Strip(s: string): (r: string)
    ensures |r| <= |s|
  {
    TrimEnd(TrimStart(s))
  }

  /** What `lstrip` keeps is a suffix, what it drops is whitespace, and it stops at a non-space. */
  lemma {:induction false} TrimStartShape(s: string)
    ensures var r := TrimStart(s);
      && r == s[|s| - |r|..]
      && AllSpace(s[..|s| - |r|])
      && (r == [] || !IsSpace(r[0]))
  {
    if s != [] && IsSpace(s[0]) {
      var r := TrimStart(s[1..]);
      TrimStartShape(s[1..]);
      assert s[..|s| - |r|] == [s[0]] + s[1..][..|s| - 1 - |r|];
    }
  }

  /** What `rstrip` keeps is a prefix, what it drops is whitespace, and it stops at a non-space. */
  lemma {:induction false} TrimEndShape(s: string)
    ensures var r := TrimEnd(s);
      && r == s[..|r|]
      && AllSpace(s[|r|..])
      && (r == [] || !IsSpace(r[|r| - 1]))
  {
    if s != [] && IsSpace(s[|s| - 1]) {
      var r := TrimEnd(s[..|s| - 1]);
      TrimEndShape(s[..|s| - 1]);
      assert s[|r|..] == s[..|s| - 1][|r|..] + [s[|s| - 1]];
    }
  }

  /**
   * `strip` cuts the text into whitespace, the stripped text and whitespace, and
   * the stripped text neither starts nor ends with whitespace.
   */
  lemma StripShape(s: string)
    ensures var r := Strip(s); var i := |s| - |TrimStart(s)|;
      && i + |r| <= |s|
      && s == s[..i] + r + s[i + |r|..]
      && AllSpace(s[..i]) && AllSpace(s[i + |r|..])
      && NoOuterSpace(r)
  {
    var u := TrimStart(s);
    var r := Strip(s);
    var i := |s| - |u|;
    TrimStartShape(s);
    TrimEndShape(u);
    assert u[|r|..] == s[i + |r|..];
    if r != [] {
      assert r[0] == u[0];
    }
    assert s == s[..i] + u;
    assert u == r + u[|r|..];
  }

  /** `strip` leaves nothing exactly when the text is all whitespace. */
  lemma StripEmptyIffBlank(s: string)
    ensures Strip(s) == [] <==> AllSpace(s)
  {
    if AllSpace(s) {
      StripPadded(s, [], []);
      assert s + [] + [] == s;
    }
    if Strip(s) == [] {
      StripShape(s);
      var i := |s| - |TrimStart(s)|;
      forall k | 0 <= k < |s|
        ensures IsSpace(s[k])
      {
        if k < i {
          assert s[k] == s[..i][k];
        } else {
          assert s[k] == s[i..][k - i];
        }
      }
    }
  }

  /** Stripped text has no whitespace around it. */
  lemma StripTrims(s: string)
    ensures NoOuterSpace(Strip(s))
  {
    StripShape(s);
  }

  lemma {:induction false} TrimStartPadded(pre: string, u: string)
    requires AllSpace(pre)
    ensures TrimStart(pre + u) == TrimStart(u)
    decreases |pre|
  {
    if pre != [] {
      assert (pre + u)[0] == pre[0];
      assert (pre + u)[1..] == pre[1..] + u;
      TrimStartPadded(pre[1..], u);
    } else {
      assert pre + u == u;
    }
  }

  lemma {:induction false} TrimEndPadded(u: string, post: string)
    requires AllSpace(post)
    ensures TrimEnd(u + post) == TrimEnd(u)
    decreases |post|
  {
    if post != [] {
      assert (u + post)[|u + post| - 1] == post[|post| - 1];
      assert (u + post)[..|u + post| - 1] == u + post[..|post| - 1];
      TrimEndPadded(u, post[..|post| - 1]);
    } else {
      assert u + post == u;
    }
  }

  /** Stripping removes exactly the whitespace padding around a text that has none of its own. */
  lemma StripPadded(pre: string, t: string, post: string)
    requires AllSpace(pre) && AllSpace(post) && NoOuterSpace(t)
    ensures Strip(pre + t + post) == t
  {
    var u := t + post;
    assert pre + t + post == pre + u;
    TrimStartPadded(pre, u);
    TrimStartOfText(t, post);
    if t != [] {
      TrimEndPadded(t, post);
    }
  }

  /** Leading whitespace stops where the text starts. */
  lemma TrimStartOfText(t: string, post: string)
    requires AllSpace(post) && NoOuterSpace(t)
    ensures TrimStart(t + post) == if t == [] then [] else t + post
  {
    if t == [] {
      assert t + post == post + t;
      TrimStartPadded(post, t);
    } else {
      assert (t + post)[0] == t[0];
    }
  }

  /** Text without surrounding whitespace is left alone. */
  lemma StripUnpadded(t: string)
    requires NoOuterSpace(t)
    ensures Strip(t) == t
  {
    assert TrimStart(t) == t;
    assert t == [] || !IsSpace(t[|t| - 1]);
  }

  /** Stripping twice is stripping once. */
  lemma StripIdempotent(s: string)
    ensures Strip(Strip(s)) == Strip(s)
  {
    StripTrims(s);
    StripUnpadded(Strip(s));
  }

  predicate IsDigit(c: char) {
    '0' <= c <= '9'
  }

  predicate AllDigits(s: string) {
    forall i :: 0 <= i < |s| ==> IsDigit(s[i])
  }

  function DigitValue(c: char): (d: nat)
    requires IsDigit(c)
    ensures d < 10
  {
    (c as int) - ('0' as int)
  }

  function DigitChar(d: nat): (c: char)
    requires d < 10
    ensures IsDigit(c) && DigitValue(c) == d
  {
    (('0' as int) + d) as char
  }

  /** The value of a non-empty run of decimal digits, most significant first. */
  function DigitsValue(s: string): nat
    requires AllDigits(s)
  {
    if s == [] then 0 else DigitsValue(s[..|s| - 1]) * 10 + DigitValue(s[|s| - 1])
  }

  /**
   * Python's `int(s)` on a string, in base 10: surrounding whitespace is allowed,
   * then an optional sign, then one or more decimal digits. Anything else is the
   * ValueError `int` raises, here `None`.
   */
  function ParseInt(s: string): Option<int> {
    ParseSigned(Strip(s))
  }

  /** Blank text is no integer. */
  lemma ParseIntOfBlank(s: string)
    requires AllSpace(s)
    ensures ParseInt(s) == None
  {
    StripPadded(s, [], []);
    assert s + [] + [] == s;
  }

  /** `int` on text whose surrounding whitespace is already gone. */
  function ParseSigned(t: string): Option<int> {
    if t == [] then None
    else if t[0] == '+' || t[0] == '-' then
      var digits := t[1..];
      if digits != [] && AllDigits(digits) then
        var magnitude: int := DigitsValue(digits);
        Some(if t[0] == '-' then -magnitude else magnitude)
      else None
    else if AllDigits(t) then Some(DigitsValue(t))
    else None
  }

  /** A non-digit anywhere after the first character makes the text no integer. */
  lemma ParseSignedRejects(t: string, k: nat)
    requires 1 <= k < |t| && !IsDigit(t[k])
    ensures ParseSigned(t) == None
  {
    assert !AllDigits(t);
    assert !AllDigits(t[1..]) by {
      assert t[1..][k - 1] == t[k];
    }
  }

  /** Python's `str(n)` for a natural number: its decimal digits without leading zeros. */
  function NatToString(n: nat): (r: string)
    ensures r != [] && AllDigits(r)
  {
    if n < 10 then [DigitChar(n)] else NatToString(n / 10) + [DigitChar(n % 10)]
  }

  /** Python's `str(n)` for an integer. */
  function IntToString(n: int): (r: string)
    ensures r != [] && (r[0] == '-' || IsDigit(r[0])) && NoOuterSpace(r)
  {
    if n < 0 then "-" + NatToString(-n) else NatToString(n)
  }

  lemma {:induction false} NatToStringValue(n: nat)
    ensures DigitsValue(NatToString(n)) == n
  {
    if n >= 10 {
      var s := NatToString(n);
      assert s[..|s| - 1] == NatToString(n / 10);
      NatToStringValue(n / 10);
    }
  }

  /** `int(str(n)) == n`, also when the text is padded with whitespace. */
  lemma ParseIntOfIntToString(pre: string, n: int, post: string)
    requires AllSpace(pre) && AllSpace(post)
    ensures ParseInt(pre + IntToString(n) + post) == Some(n)
  {
    var t := IntToString(n);
    StripPadded(pre, t, post);
    ParseSignedOfIntToString(n);
  }

  lemma ParseSignedOfIntToString(n: int)
    ensures ParseSigned(IntToString(n)) == Some(n)
  {
    var t := IntToString(n);
    if n < 0 {
      var digits := NatToString(-n);
      assert t[0] == '-' && t[1..] == digits;
      NatToStringValue(-n);
    } else {
      assert t[0] != '+' && t[0] != '-';
      NatToStringValue(n);
    }
  }
}
