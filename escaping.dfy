/** `escapeHtml`, which the teacher editor, the student viewer and the coverage page each
    define identically: five chained `replaceAll` calls, `&` first. */
module Escaping {

  /** `s.replaceAll(c, rep)` for a one-character pattern `c`. */
  function ReplaceChar(s: string, c: char, rep: string): (r: string)
    ensures c !in rep ==> c !in r
    ensures forall x :: x in r ==> (x in s && x != c) || x in rep
  {
    if s == [] then []
    else (if s[0] == c then rep else [s[0]]) + ReplaceChar(s[1..], c, rep)
  }

  /** `escapeHtml(s)`, literally as the chain of replacements. */
  function EscapeHtml(s: string): (r: string)
    ensures '<' !in r && '>' !in r && '"' !in r && '\'' !in r
  {
    ReplaceChar(ReplaceChar(ReplaceChar(ReplaceChar(ReplaceChar(
      s, '&', "&amp;"), '<', "&lt;"), '>', "&gt;"), '"', "&quot;"), '\'', "&#39;")
  }

  /** The entity one character becomes. */
  function EscapeChar(c: char): (r: string)
    ensures r != []
  {
    if c == '&' then "&amp;"
    else if c == '<' then "&lt;"
    else if c == '>' then "&gt;"
    else if c == '"' then "&quot;"
    else if c == '\'' then "&#39;"
    else [c]
  }

  /** The character-by-character reading of the escaper. */
  function EscapeEach(s: string): string {
    if s == [] then [] else EscapeChar(s[0]) + EscapeEach(s[1..])
  }

  /** An HTML-special character: the ones the escaper replaces, other than `&`. */
  predicate IsHtmlSpecial(c: char) {
    c == '<' || c == '>' || c == '"' || c == '\''
  }

  /** `s` begins with one of the five entities the escaper writes. */
  predicate StartsWithEntity(s: string) {
    "&amp;" <= s || "&lt;" <= s || "&gt;" <= s || "&quot;" <= s || "&#39;" <= s
  }

  /** The output shape of the escaper: no HTML-special character, and every `&` begins one of
      the five entities. */
  predicate IsEscaped(s: string) {
    && (forall i :: 0 <= i < |s| ==> !IsHtmlSpecial(s[i]))
    && (forall i :: 0 <= i < |s| && s[i] == '&' ==> StartsWithEntity(s[i..]))
  }

  lemma {:induction false} ReplaceCharAppend(a: string, b: string, c: char, rep: string)
    ensures ReplaceChar(a + b, c, rep) == ReplaceChar(a, c, rep) + ReplaceChar(b, c, rep)
  {
    if a == [] {
      assert a + b == b;
    } else {
      assert (a + b)[1..] == a[1..] + b;
      ReplaceCharAppend(a[1..], b, c, rep);
    }
  }

  lemma {:induction false} ReplaceCharSingle(x: char, c: char, rep: string)
    ensures ReplaceChar([x], c, rep) == if x == c then rep else [x]
  {
    assert [x][1..] == [];
  }

  lemma ReplaceCharAbsent(s: string, c: char, rep: string)
    requires c !in s
    ensures ReplaceChar(s, c, rep) == s
  {
  }

  /** The last four replacements leave alone a text that holds none of their characters. */
  lemma LaterReplacementsSkip(e: string)
    requires '<' !in e && '>' !in e && '"' !in e && '\'' !in e
    ensures ReplaceChar(ReplaceChar(ReplaceChar(ReplaceChar(
      e, '<', "&lt;"), '>', "&gt;"), '"', "&quot;"), '\'', "&#39;") == e
  {
    ReplaceCharAbsent(e, '<', "&lt;");
    ReplaceCharAbsent(e, '>', "&gt;");
    ReplaceCharAbsent(e, '"', "&quot;");
    ReplaceCharAbsent(e, '\'', "&#39;");
  }

  /** The chained replacements, applied to one character, give that character's entity:
      because `&` is replaced first, no later replacement can touch an entity. */
  lemma EscapeHtmlChar(x: char)
    ensures EscapeHtml([x]) == EscapeChar(x)
  {
    ReplaceCharSingle(x, '&', "&amp;");
    var s1 := ReplaceChar([x], '&', "&amp;");
    if x == '&' {
      assert s1 == "&amp;";
      LaterReplacementsSkip("&amp;");
    } else {
      assert s1 == [x];
      ReplaceCharSingle(x, '<', "&lt;");
      var s2 := ReplaceChar(s1, '<', "&lt;");
      if x == '<' {
        assert s2 == "&lt;";
        LaterReplacementsSkip("&lt;");
        ReplaceCharAbsent("&lt;", '<', "&lt;");
      } else {
        assert s2 == [x];
        ReplaceCharSingle(x, '>', "&gt;");
        var s3 := ReplaceChar(s2, '>', "&gt;");
        if x == '>' {
          assert s3 == "&gt;";
          ReplaceCharAbsent("&gt;", '"', "&quot;");
          ReplaceCharAbsent("&gt;", '\'', "&#39;");
        } else {
          assert s3 == [x];
          ReplaceCharSingle(x, '"', "&quot;");
          var s4 := ReplaceChar(s3, '"', "&quot;");
          if x == '"' {
            assert s4 == "&quot;";
            ReplaceCharAbsent("&quot;", '\'', "&#39;");
          } else {
            assert s4 == [x];
            ReplaceCharSingle(x, '\'', "&#39;");
          }
        }
      }
    }
  }

  lemma EscapeHtmlAppend(a: string, b: string)
    ensures EscapeHtml(a + b) == EscapeHtml(a) + EscapeHtml(b)
  {
    ReplaceCharAppend(a, b, '&', "&amp;");
    var a1, b1 := ReplaceChar(a, '&', "&amp;"), ReplaceChar(b, '&', "&amp;");
    ReplaceCharAppend(a1, b1, '<', "&lt;");
    var a2, b2 := ReplaceChar(a1, '<', "&lt;"), ReplaceChar(b1, '<', "&lt;");
    ReplaceCharAppend(a2, b2, '>', "&gt;");
    var a3, b3 := ReplaceChar(a2, '>', "&gt;"), ReplaceChar(b2, '>', "&gt;");
    ReplaceCharAppend(a3, b3, '"', "&quot;");
    var a4, b4 := ReplaceChar(a3, '"', "&quot;"), ReplaceChar(b3, '"', "&quot;");
    ReplaceCharAppend(a4, b4, '\'', "&#39;");
  }

  /** The chain of `replaceAll` calls is the same as escaping each character on its own. */
  lemma {:induction false} EscapeHtmlIsEscapeEach(s: string)
    ensures EscapeHtml(s) == EscapeEach(s)
  {
    if s == [] {
    } else {
      assert s == [s[0]] + s[1..];
      EscapeHtmlAppend([s[0]], s[1..]);
      EscapeHtmlChar(s[0]);
      EscapeHtmlIsEscapeEach(s[1..]);
    }
  }

  lemma {:induction false} EscapedConcat(a: string, b: string)
    requires IsEscaped(a) && IsEscaped(b)
    ensures IsEscaped(a + b)
  {
    var s := a + b;
    forall i | 0 <= i < |s| && s[i] == '&' ensures StartsWithEntity(s[i..]) {
      if i < |a| {
        assert a[i] == '&';
        assert s[i..] == a[i..] + b;
      } else {
        assert s[i..] == b[i - |a|..];
      }
    }
  }

  /** An entity is escaped text: its only `&` is its first character. */
  lemma EntityEscaped(e: string)
    requires StartsWithEntity(e) && e[0] == '&'
    requires forall i :: 0 <= i < |e| ==> !IsHtmlSpecial(e[i]) && (i > 0 ==> e[i] != '&')
    ensures IsEscaped(e)
  {
    assert e[0..] == e;
  }

  lemma EscapeCharEscaped(c: char)
    ensures IsEscaped(EscapeChar(c))
  {
    if c == '&' { EntityEscaped("&amp;"); }
    else if c == '<' { EntityEscaped("&lt;"); }
    else if c == '>' { EntityEscaped("&gt;"); }
    else if c == '"' { EntityEscaped("&quot;"); }
    else if c == '\'' { EntityEscaped("&#39;"); }
  }

  lemma {:induction false} EscapeEachEscaped(s: string)
    ensures IsEscaped(EscapeEach(s))
  {
    if s != [] {
      EscapeCharEscaped(s[0]);
      EscapeEachEscaped(s[1..]);
      EscapedConcat(EscapeChar(s[0]), EscapeEach(s[1..]));
    }
  }

  /** `escapeHtml` leaves no `<`, `>`, `"` or `'` in its output, and every `&` it leaves
      begins one of the five entities. */
  lemma EscapeHtmlIsEscaped(s: string)
    ensures IsEscaped(EscapeHtml(s))
  {
    EscapeHtmlIsEscapeEach(s);
    EscapeEachEscaped(s);
  }

  /** Decoding of the five entities, the inverse of the escaper. */
  function UnescapeHtml(s: string): string
    decreases |s|
  {
    if s == [] then []
    else if "&amp;" <= s then "&" + UnescapeHtml(s[5..])
    else if "&lt;" <= s then "<" + UnescapeHtml(s[4..])
    else if "&gt;" <= s then ">" + UnescapeHtml(s[4..])
    else if "&quot;" <= s then "\"" + UnescapeHtml(s[6..])
    else if "&#39;" <= s then "'" + UnescapeHtml(s[5..])
    else [s[0]] + UnescapeHtml(s[1..])
  }

  /** Decoding undoes the escape of the first character. */
  lemma UnescapeStep(c: char, rest: string)
    ensures UnescapeHtml(EscapeChar(c) + rest) == [c] + UnescapeHtml(rest)
  {
    var e := EscapeChar(c) + rest;
    if c == '&' {
      assert "&amp;" <= e && e[5..] == rest;
    } else if c == '<' {
      assert !("&amp;" <= e) by { assert e[1] == 'l'; }
      assert "&lt;" <= e && e[4..] == rest;
    } else if c == '>' {
      assert !("&amp;" <= e) && !("&lt;" <= e) by { assert e[1] == 'g'; }
      assert "&gt;" <= e && e[4..] == rest;
    } else if c == '"' {
      assert !("&amp;" <= e) && !("&lt;" <= e) && !("&gt;" <= e) by { assert e[1] == 'q'; }
      assert "&quot;" <= e && e[6..] == rest;
    } else if c == '\'' {
      assert !("&amp;" <= e) && !("&lt;" <= e) && !("&gt;" <= e) && !("&quot;" <= e) by { assert e[1] == '#'; }
      assert "&#39;" <= e && e[5..] == rest;
    } else {
      assert e[0] == c && e[1..] == rest;
    }
  }

  lemma {:induction false} UnescapeEscapeEach(s: string)
    ensures UnescapeHtml(EscapeEach(s)) == s
  {
    if s != [] {
      UnescapeEscapeEach(s[1..]);
      UnescapeStep(s[0], EscapeEach(s[1..]));
      assert s == [s[0]] + s[1..];
    }
  }

  /** Escaping loses nothing: decoding the five entities gives the original text back. */
  lemma EscapeHtmlRoundTrip(s: string)
    ensures UnescapeHtml(EscapeHtml(s)) == s
  {
    EscapeHtmlIsEscapeEach(s);
    UnescapeEscapeEach(s);
  }

  /** Escaping is one-to-one: two texts that escape alike are the same text. */
  lemma EscapeHtmlInjective(s: string, t: string)
    requires EscapeHtml(s) == EscapeHtml(t)
    ensures s == t
  {
    EscapeHtmlRoundTrip(s);
    EscapeHtmlRoundTrip(t);
  }
}
