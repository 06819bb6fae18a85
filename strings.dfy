/** The string operations the pages borrow from JavaScript: `trim`, `toLowerCase`,
    `includes` and the decimal rendering of a number inside a template literal. */
module Strings {

  /** The characters `String.prototype.trim` strips: white space and line terminators. */
  predicate IsWhitespace(c: char) {
    c == ' ' || c == '\t' || c == '\n' || c == '\r' || c == '\U{B}' || c == '\U{C}'
    || c == '\U{A0}' || c == '\U{1680}' || ('\U{2000}' <= c <= '\U{200A}')
    || c == '\U{2028}' || c == '\U{2029}' || c == '\U{202F}' || c == '\U{205F}'
    || c == '\U{3000}' || c == '\U{FEFF}'
  }

  predicate AllWhitespace(s: string) {
    forall i :: 0 <= i < |s| ==> IsWhitespace(s[i])
  }

  /** Drops the leading white space: what is removed is all white space. */
  function TrimStart(s: string): (r: string)
    ensures |r| <= |s| && r == s[|s| - |r|..]
    ensures AllWhitespace(s[..|s| - |r|])
    ensures r != [] ==> !IsWhitespace(r[0])
  {
    if s != [] && IsWhitespace(s[0]) then
      var r := TrimStart(s[1..]);
      assert forall i :: 1 <= i < |s| - |r| ==> s[i] == s[1..][..|s| - 1 - |r|][i - 1];
      r
    else s
  }

  /** Drops the trailing white space: what is removed is all white space. */
  function TrimEnd(s: string): (r: string)
    ensures |r| <= |s| && r == s[..|r|]
    ensures AllWhitespace(s[|r|..])
    ensures r != [] ==> !IsWhitespace(r[|r| - 1])
  {
    if s != [] && IsWhitespace(s[|s| - 1]) then
      var r := TrimEnd(s[..|s| - 1]);
      assert forall i :: |r| <= i < |s| - 1 ==> s[i] == s[..|s| - 1][|r|..][i - |r|];
      r
    else s
  }

  /** `s.trim()`: the input with white space cut from both ends, and nothing else removed. */
  function Trim(s: string): (r: string)
    ensures exists i, j :: 0 <= i <= j <= |s| && AllWhitespace(s[..i]) && AllWhitespace(s[j..])
                           && r == s[i..j]
    ensures r != [] ==> !IsWhitespace(r[0]) && !IsWhitespace(r[|r| - 1])
  {
    var r := TrimEnd(TrimStart(s));
    TrimShape(s, r);
    r
  }

  /** What `trim` cuts off is white space at the two ends. */
  lemma {:induction false} TrimShape(s: string, r: string)
    requires r == TrimEnd(TrimStart(s))
    ensures exists i, j :: 0 <= i <= j <= |s| && AllWhitespace(s[..i]) && AllWhitespace(s[j..])
                           && r == s[i..j]
  {
    var t := TrimStart(s);
    var i := |s| - |t|;
    assert t == s[i..] && AllWhitespace(s[..i]);
    SliceOfSuffix(s, i, |r|);
    assert r == s[i..i + |r|];
    assert AllWhitespace(t[|r|..]) && t[|r|..] == s[i + |r|..];
  }

  /** Slicing a suffix is slicing the whole. */
  lemma SliceOfSuffix<T>(s: seq<T>, i: nat, n: nat)
    requires i + n <= |s|
    ensures s[i..][..n] == s[i..i + n] && s[i..][n..] == s[i + n..]
  {
  }

  lemma {:induction false} TrimStartEmpty(s: string)
    ensures TrimStart(s) == [] <==> AllWhitespace(s)
  {
    if s != [] {
      TrimStartEmpty(s[1..]);
      if IsWhitespace(s[0]) {
        assert AllWhitespace(s) <==> AllWhitespace(s[1..]) by {
          if AllWhitespace(s[1..]) {
            forall i | 0 <= i < |s| ensures IsWhitespace(s[i]) {
              if i > 0 { assert s[i] == s[1..][i - 1]; }
            }
          }
        }
      }
    }
  }

  /** `s.trim() !== ""` holds exactly when `s` has a character that is not white space. */
  lemma TrimEmptyIff(s: string)
    ensures Trim(s) == [] <==> AllWhitespace(s)
  {
    TrimStartEmpty(s);
    var t := TrimStart(s);
    if t != [] {
      TrimEndKeepsFirst(t);
    }
  }

  /** Trimming the end never removes a first character that is not white space. */
  lemma {:induction false} TrimEndKeepsFirst(t: string)
    requires t != [] && !IsWhitespace(t[0])
    ensures TrimEnd(t) != []
  {
    if |t| > 1 && IsWhitespace(t[|t| - 1]) {
      TrimEndKeepsFirst(t[..|t| - 1]);
    }
  }

  /** ASCII `toLowerCase` of one character. */
  function LowerChar(c: char): (r: char)
    ensures !('A' <= r <= 'Z')
    ensures !('A' <= c <= 'Z') ==> r == c
  {
    if 'A' <= c <= 'Z' then (c as int - 'A' as int + 'a' as int) as char else c
  }

  /** `s.toLowerCase()` restricted to the ASCII letters. */
  function ToLower(s: string): (r: string)
    ensures |r| == |s|
    ensures forall i :: 0 <= i < |s| ==> r[i] == LowerChar(s[i])
  {
    seq(|s|, i requires 0 <= i < |s| => LowerChar(s[i]))
  }

  /** `hay.includes(needle)`. */
  predicate Contains(hay: string, needle: string) {
    exists i :: 0 <= i <= |hay| && needle <= hay[i..]
  }

  /** A search box's value as the pages use it: trimmed, then lowercased. */
  function Query(input: string): (q: string)
    ensures exists i, j :: 0 <= i <= j <= |input| && AllWhitespace(input[..i])
                           && AllWhitespace(input[j..]) && q == ToLower(input[i..j])
    ensures q == [] <==> AllWhitespace(input)
    ensures q != [] ==> !IsWhitespace(q[0]) && !IsWhitespace(q[|q| - 1])
    ensures forall i :: 0 <= i < |q| ==> !('A' <= q[i] <= 'Z')
  {
    var q := ToLower(Trim(input));
    QueryShape(input, q);
    q
  }

  /** The four facts `Query` promises, about the lowercased trimmed text. */
  lemma {:induction false} QueryShape(input: string, q: string)
    requires q == ToLower(Trim(input))
    ensures exists i, j :: 0 <= i <= j <= |input| && AllWhitespace(input[..i])
                           && AllWhitespace(input[j..]) && q == ToLower(input[i..j])
    ensures q == [] <==> AllWhitespace(input)
    ensures q != [] ==> !IsWhitespace(q[0]) && !IsWhitespace(q[|q| - 1])
    ensures forall i :: 0 <= i < |q| ==> !('A' <= q[i] <= 'Z')
  {
    TrimEmptyIff(input);
    LowerTrimmed(input);
    LowerKeepsEnds(Trim(input));
  }

  /** Lowercasing keeps a non-white-space first and last character non-white-space. */
  lemma LowerKeepsEnds(t: string)
    requires t != [] ==> !IsWhitespace(t[0]) && !IsWhitespace(t[|t| - 1])
    ensures var l := ToLower(t); l != [] ==> !IsWhitespace(l[0]) && !IsWhitespace(l[|l| - 1])
  {
  }

  /** Lowercasing the trimmed text is lowercasing the slice `trim` keeps. */
  lemma {:induction false} LowerTrimmed(input: string)
    ensures exists i, j :: 0 <= i <= j <= |input| && AllWhitespace(input[..i])
                           && AllWhitespace(input[j..]) && ToLower(Trim(input)) == ToLower(input[i..j])
  {
    var i, j :| 0 <= i <= j <= |input| && AllWhitespace(input[..i]) && AllWhitespace(input[j..])
                && Trim(input) == input[i..j];
    assert ToLower(Trim(input)) == ToLower(input[i..j]);
  }

  /** The filter callback of the search boxes: an empty query keeps every row; otherwise the
      lowercased row text must contain the query. */
  predicate Matches(q: string, text: string) {
    q == [] || Contains(ToLower(text), q)
  }

  predicate IsDigit(c: char) { '0' <= c <= '9' }

  function DigitChar(d: nat): (c: char)
    requires d < 10
    ensures IsDigit(c)
  {
    ('0' as int + d) as char
  }

  /** The decimal text of a number, as `${n}` writes it. */
  function NatToString(n: nat): (r: string)
    ensures |r| >= 1
    ensures forall i :: 0 <= i < |r| ==> IsDigit(r[i])
    ensures r[0] == '0' ==> n == 0
  {
    if n < 10 then [DigitChar(n)] else NatToString(n / 10) + [DigitChar(n % 10)]
  }

  /** The number a string of decimal digits denotes. */
  function DecimalValue(s: string): nat
    requires forall i :: 0 <= i < |s| ==> IsDigit(s[i])
  {
    if s == [] then 0
    else 10 * DecimalValue(s[..|s| - 1]) + DigitValue(s[|s| - 1])
  }

  function DigitValue(c: char): (d: nat)
    requires IsDigit(c)
    ensures d < 10 && DigitChar(d) == c
  {
    c as int - '0' as int
  }

  /** Reading back the decimal text of `n` gives `n`. */
  lemma {:induction false} DecimalRoundTrip(n: nat)
    ensures DecimalValue(NatToString(n)) == n
  {
    if n >= 10 {
      var s := NatToString(n);
      assert s[..|s| - 1] == NatToString(n / 10);
      DecimalRoundTrip(n / 10);
    }
  }

  /** Different numbers have different decimal texts. */
  lemma NatToStringInjective(n: nat, m: nat)
    requires NatToString(n) == NatToString(m)
    ensures n == m
  {
    DecimalRoundTrip(n);
    DecimalRoundTrip(m);
  }

  /** If `p + x == p + y` then `x == y`. */
  lemma SamePrefixCancels(p: string, x: string, y: string)
    requires p + x == p + y
    ensures x == y
  {
    assert x == (p + x)[|p|..];
    assert y == (p + y)[|p|..];
  }

  /** If `p + x + q == p + y + q` then `x == y`. */
  lemma SameAffixesCancel(p: string, x: string, y: string, q: string)
    requires p + x + q == p + y + q
    ensures x == y
  {
    assert |x| == |y|;
    assert x == (p + x + q)[|p|..|p| + |x|];
    assert y == (p + y + q)[|p|..|p| + |y|];
  }

  /** `(b + c).includes(b)`. */
  lemma ContainsStart(b: string, c: string)
    ensures Contains(b + c, b)
  {
    assert b <= (b + c)[0..];
  }

  /** `(a + b + c + d).includes(b)`. */
  lemma ContainsInside(a: string, b: string, c: string, d: string)
    ensures Contains(a + b + c + d, b)
  {
    assert b <= (a + b + c + d)[|a|..];
  }
}
