/** Whitespace and Python's argument-less `str.strip()`.

    The whitespace set is written out explicitly: it is the set of code points
    for which Python 3's `str.isspace()` holds, which is the set `str.strip()`
    removes when it is called without arguments.
 */
module Whitespace {

  /** The code points Python 3 treats as whitespace. */
  const WhitespaceChars: set<char> := {
    '\t', '\n', '\U{0B}', '\U{0C}', '\r',
    '\U{1C}', '\U{1D}', '\U{1E}', '\U{1F}', ' ',
    '\U{85}', '\U{A0}', '\U{1680}',
    '\U{2000}', '\U{2001}', '\U{2002}', '\U{2003}', '\U{2004}', '\U{2005}',
    '\U{2006}', '\U{2007}', '\U{2008}', '\U{2009}', '\U{200A}',
    '\U{2028}', '\U{2029}', '\U{202F}', '\U{205F}', '\U{3000}'
  }

  predicate IsWhitespace(c: char) {
    c in WhitespaceChars
  }

  predicate AllWhitespace(s: string) {
    forall k :: 0 <= k < |s| ==> IsWhitespace(s[k])
  }

  /** A string `strip()` leaves alone: empty, or starting and ending with a
      non-whitespace character. */
  predicate IsStripped(s: string) {
    |s| == 0 || (!IsWhitespace(s[0]) && !IsWhitespace(s[|s| - 1]))
  }

  /** How many whitespace characters `s` starts with: what `lstrip()` removes. */
  function LeadingWhitespace(s: string): nat {
    CountLeading(s)
  }

  /** The count behind LeadingWhitespace, one character at a time from the
      front. */
  function CountLeading(s: string): (n: nat)
    ensures n <= |s|
    ensures AllWhitespace(s[..n])
    ensures n < |s| ==> !IsWhitespace(s[n])
  {
    if |s| > 0 && IsWhitespace(s[0]) then
      var n := 1 + CountLeading(s[1..]);
      assert s[..n] == [s[0]] + s[1..][..n - 1];
      n
    else 0
  }

  /** How many whitespace characters `s` ends with: what `rstrip()` removes. */
  function TrailingWhitespace(s: string): (n: nat)
    ensures n <= |s|
    ensures AllWhitespace(s[|s| - n..])
    ensures n < |s| ==> !IsWhitespace(s[|s| - n - 1])
  {
    if |s| > 0 && IsWhitespace(s[|s| - 1]) then
      var n := 1 + TrailingWhitespace(s[..|s| - 1]);
      assert s[|s| - n..] == s[..|s| - 1][|s| - n..] + [s[|s| - 1]];
      n
    else 0
  }

  /** When `s` is not all whitespace, its leading and trailing whitespace do
      not meet. */
  lemma WhitespaceEndsApart(s: string)
    requires LeadingWhitespace(s) < |s|
    ensures LeadingWhitespace(s) < |s| - TrailingWhitespace(s)
  {
  }

  /** Python's `strip()`: the result is stripped, it starts in `s` right after
      the leading whitespace, and only whitespace follows it in `s`.
      StripOfPadded shows this pins the result down. */
  function Strip(s: string): (r: string)
    ensures IsStripped(r)
    ensures var i := LeadingWhitespace(s);
            && i + |r| <= |s|
            && r == s[i..i + |r|]
            && AllWhitespace(s[i + |r|..])
  {
    var lo := LeadingWhitespace(s);
    if lo == |s| then "" else
      WhitespaceEndsApart(s);
      s[lo..|s| - TrailingWhitespace(s)]
  }

  /** The reference characterisation of `strip()`: whatever whitespace pads a
      stripped string, stripping gives back exactly that string. */
  lemma StripOfPadded(a: string, m: string, b: string)
    requires AllWhitespace(a) && AllWhitespace(b) && IsStripped(m)
    ensures Strip(a + m + b) == m
  {
    var s := a + m + b;
    var i := LeadingWhitespace(s);
    var r := Strip(s);
    if |m| == 0 {
      assert s == a + b;
      assert AllWhitespace(s) by { AllWhitespaceConcat(a, b); }
      assert i == |s|;
    } else {
      assert s[|a|] == m[0];
      assert i == |a|;
      assert s[|a| + |m| - 1] == m[|m| - 1];
      assert r[|r| - 1] == s[|a| + |r| - 1];
      assert |r| == |m|;
      assert s[|a|..|a| + |m|] == m;
    }
  }

  lemma AllWhitespaceConcat(x: string, y: string)
    requires AllWhitespace(x) && AllWhitespace(y)
    ensures AllWhitespace(x + y)
  {
    forall k | 0 <= k < |x + y| ensures IsWhitespace((x + y)[k]) {
      if k >= |x| { assert (x + y)[k] == y[k - |x|]; }
    }
  }

  /** A string is its leading whitespace, its stripped form and its trailing
      whitespace, in that order. */
  lemma StripSplitsString(m: string)
    ensures var i, r := LeadingWhitespace(m), Strip(m);
            m == m[..i] + r + m[i + |r|..]
  {
    var i, r := LeadingWhitespace(m), Strip(m);
    var j := i + |r|;
    assert m[..i] + m[i..j] == m[..j];
    assert m[..j] + m[j..] == m;
  }

  /** Concatenation regrouped: lets StripIgnoresPadding move the whitespace
      of `m` into the padding. */
  lemma Regroup(a: string, p: string, r: string, q: string, b: string)
    ensures a + (p + r + q) + b == (a + p) + r + (q + b)
  {
  }

  /** Whitespace added around a string does not change what it strips to. */
  lemma StripIgnoresPadding(a: string, m: string, b: string)
    requires AllWhitespace(a) && AllWhitespace(b)
    ensures Strip(a + m + b) == Strip(m)
  {
    var i, r := LeadingWhitespace(m), Strip(m);
    var pre, post := m[..i], m[i + |r|..];
    AllWhitespaceConcat(a, pre);
    AllWhitespaceConcat(post, b);
    StripSplitsString(m);
    Regroup(a, pre, r, post, b);
    assert a + m + b == (a + pre) + r + (post + b);
    StripOfPadded(a + pre, r, post + b);
  }

  /** Trailing whitespace does not change what a string strips to. */
  lemma StripIgnoresTrailing(x: string, m: string, pad: string)
    requires AllWhitespace(pad) && x == m + pad
    ensures Strip(x) == Strip(m)
  {
    assert x == "" + m + pad;
    StripIgnoresPadding("", m, pad);
  }

  /** A stripped string is a fixed point of `strip()`. */
  lemma StripKeepsStripped(s: string)
    requires IsStripped(s)
    ensures Strip(s) == s
  {
    assert "" + s + "" == s;
    StripOfPadded("", s, "");
  }

  /** `strip()` is idempotent. */
  lemma StripIdempotent(s: string)
    ensures Strip(Strip(s)) == Strip(s)
  {
    StripKeepsStripped(Strip(s));
  }
}
