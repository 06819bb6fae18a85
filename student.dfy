/** The pure helpers of the student viewer: lookup by id, the list items a lesson's weak
    references turn into, the homework and notes guards, and the two escapers beside
    `escapeHtml` (the LaTeX-backslash variant and the attribute quote encoder). */
module Student {
  import opened PlanModel
  import opened Strings
  import opened Seqs
  import opened Escaping

  // ---------- Lookup by id ----------

  /** The `x && x.id === id` test of `byId`; `None` is a null entry of the table. */
  predicate IsEntryFor<T>(e: Option<T>, key: T -> string, id: string) {
    e.Some? && key(e.value) == id
  }

  /** `byId(arr, id)`: the first non-null entry whose id is `id`, or nothing. */
  function ById<T(==)>(table: seq<Option<T>>, key: T -> string, id: string): (r: Option<T>)
    ensures r.None? <==> forall i :: 0 <= i < |table| ==> !IsEntryFor(table[i], key, id)
    ensures r.Some? ==>
      exists i :: 0 <= i < |table| && table[i] == r && key(r.value) == id
                  && forall j :: 0 <= j < i ==> !IsEntryFor(table[j], key, id)
  {
    if table == [] then None
    else if IsEntryFor(table[0], key, id) then table[0]
    else
      var r := ById(table[1..], key, id);
      assert forall i :: 1 <= i < |table| ==> table[i] == table[1..][i - 1];
      if r.Some? then
        var i :| 0 <= i < |table[1..]| && table[1..][i] == r && key(r.value) == id
                 && forall j :: 0 <= j < i ==> !IsEntryFor(table[1..][j], key, id);
        assert table[i + 1] == r;
        r
      else r
  }

  function ObjectiveId(x: SyllabusObjective): string { x.id }

  function TextbookId(x: TextbookReference): string { x.id }

  // ---------- Syllabus items ----------

  /** The placeholder for a syllabus id with no objective. */
  function MissingSyllabus(id: string): string {
    "<span class=\"missing\">Missing syllabus id: " + EscapeHtml(id) + "</span>"
  }

  /** One syllabus list item: the objective's text as it stands, or the placeholder. */
  function SyllabusItem(table: seq<Option<SyllabusObjective>>, id: string): (r: string)
    ensures ById(table, ObjectiveId, id).None? ==> r == MissingSyllabus(id)
    ensures ById(table, ObjectiveId, id).Some? ==>
      exists i :: 0 <= i < |table| && table[i].Some? && table[i].value.id == id && r == table[i].value.text
  {
    match ById(table, ObjectiveId, id)
    case None => MissingSyllabus(id)
    case Some(obj) => obj.text
  }

  /** `(lesson.syllabus_ids || []).map(...)`: one item per id, same length, same order. */
  function SyllabusItems(table: seq<Option<SyllabusObjective>>, ids: seq<string>): (r: seq<string>)
    ensures |r| == |ids|
    ensures forall i :: 0 <= i < |ids| ==> r[i] == SyllabusItem(table, ids[i])
  {
    if ids == [] then [] else [SyllabusItem(table, ids[0])] + SyllabusItems(table, ids[1..])
  }

  /** Placeholders for different ids differ: the escaped id in a placeholder determines it. */
  lemma MissingSyllabusInjective(a: string, b: string)
    requires MissingSyllabus(a) == MissingSyllabus(b)
    ensures a == b
  {
    SameAffixesCancel("<span class=\"missing\">Missing syllabus id: ", EscapeHtml(a), EscapeHtml(b), "</span>");
    EscapeHtmlInjective(a, b);
  }

  // ---------- Textbook items ----------

  const EmDash: char := '\U{2014}'

  /** The placeholder for a textbook id with no reference. */
  function MissingTextbook(id: string): string {
    "<span class=\"missing\">Missing textbook id: " + EscapeHtml(id) + "</span>"
  }

  /** `tb.label || id` */
  function LabelOrId(tb: TextbookReference, id: string): string {
    if tb.labelText != "" then tb.labelText else id
  }

  /** The suffix ` <span class="muted">— detail</span>`, present only for a truthy detail. */
  function DetailSuffix(tb: TextbookReference): string {
    if Truthy(tb.detail) then " <span class=\"muted\">" + [EmDash] + " " + EscapeHtml(tb.detail.value) + "</span>"
    else ""
  }

  const AnchorOpen := "<a href=\""

  function Anchor(tb: TextbookReference, id: string): string
    requires Truthy(tb.url)
  {
    AnchorOpen + EscapeAttr(tb.url.value) + "\" target=\"_blank\" rel=\"noopener noreferrer\">"
      + EscapeHtml(LabelOrId(tb, id)) + "</a>"
  }

  /** One textbook list item: the placeholder for an unresolved id; otherwise the escaped label
      (the id when the label is empty), linked when the reference has a url, followed by the
      detail suffix. */
  function TextbookItem(table: seq<Option<TextbookReference>>, id: string): (r: string)
    ensures ById(table, TextbookId, id).None? ==> r == MissingTextbook(id)
  {
    match ById(table, TextbookId, id)
    case None => MissingTextbook(id)
    case Some(tb) =>
      if Truthy(tb.url) then Anchor(tb, id) + DetailSuffix(tb)
      else EscapeHtml(LabelOrId(tb, id)) + DetailSuffix(tb)
  }

  /** `(lesson.textbook_ids || []).map(...)`: one item per id, same length, same order. */
  function TextbookItems(table: seq<Option<TextbookReference>>, ids: seq<string>): (r: seq<string>)
    ensures |r| == |ids|
    ensures forall i :: 0 <= i < |ids| ==> r[i] == TextbookItem(table, ids[i])
  {
    if ids == [] then [] else [TextbookItem(table, ids[0])] + TextbookItems(table, ids[1..])
  }

  lemma EscapedFirstNotOpen(s: string)
    requires s != []
    ensures EscapeHtml(s)[0] != '<'
  {
    EscapeHtmlIsEscaped(s);
    EscapeHtmlIsEscapeEach(s);
    assert EscapeEach(s) == EscapeChar(s[0]) + EscapeEach(s[1..]);
  }

  /** Text that does not begin with `<`: empty, or escaped text followed by anything. */
  lemma NotAnchorStart(shown: string, d: string)
    requires d == [] || d[0] == ' '
    ensures !(AnchorOpen <= EscapeHtml(shown) + d)
  {
    var e := EscapeHtml(shown);
    if shown != [] {
      EscapedFirstNotOpen(shown);
      assert (e + d)[0] == e[0];
    } else {
      assert e == [];
      assert e + d == d;
    }
  }

  lemma AnchorStartsOpen(tb: TextbookReference, id: string)
    requires Truthy(tb.url)
    ensures AnchorOpen <= Anchor(tb, id)
  {
  }

  /** A resolved reference is emitted as an anchor exactly when its url is truthy. */
  lemma TextbookAnchorIffUrl(table: seq<Option<TextbookReference>>, id: string)
    requires ById(table, TextbookId, id).Some?
    ensures AnchorOpen <= TextbookItem(table, id) <==> Truthy(ById(table, TextbookId, id).value.url)
  {
    var tb := ById(table, TextbookId, id).value;
    var d := DetailSuffix(tb);
    if Truthy(tb.url) {
      AnchorStartsOpen(tb, id);
      PrefixOfAppend(AnchorOpen, Anchor(tb, id), d);
    } else {
      NotAnchorStart(LabelOrId(tb, id), d);
    }
  }

  predicate EndsWith(s: string, suffix: string) {
    |suffix| <= |s| && s[|s| - |suffix|..] == suffix
  }

  lemma EndsWithAppend(a: string, d: string, suffix: string)
    requires EndsWith(d, suffix)
    ensures EndsWith(a + d, suffix)
  {
    assert (a + d)[|a + d| - |suffix|..] == d[|d| - |suffix|..];
  }

  lemma DetailSuffixEnds(tb: TextbookReference)
    requires Truthy(tb.detail)
    ensures EndsWith(DetailSuffix(tb), "</span>")
  {
    var d := DetailSuffix(tb);
    assert d[|d| - 7..] == "</span>";
  }

  lemma AnchorEnd(tb: TextbookReference, id: string)
    requires Truthy(tb.url)
    ensures !EndsWith(Anchor(tb, id), "</span>")
  {
    var a := Anchor(tb, id);
    assert a[|a| - 2] == 'a';
    assert a[|a| - 7..][5] == a[|a| - 2];
  }

  /** A resolved reference ends with the detail's closing `</span>` exactly when its detail is
      truthy: the escaped label holds no `>`, and an anchor ends with `</a>`. */
  lemma TextbookDetailIffDetail(table: seq<Option<TextbookReference>>, id: string)
    requires ById(table, TextbookId, id).Some?
    ensures EndsWith(TextbookItem(table, id), "</span>") <==> Truthy(ById(table, TextbookId, id).value.detail)
  {
    var tb := ById(table, TextbookId, id).value;
    if Truthy(tb.detail) {
      DetailSuffixEnds(tb);
      if Truthy(tb.url) {
        EndsWithAppend(Anchor(tb, id), DetailSuffix(tb), "</span>");
      } else {
        EndsWithAppend(EscapeHtml(LabelOrId(tb, id)), DetailSuffix(tb), "</span>");
      }
    } else {
      assert DetailSuffix(tb) == "";
      if Truthy(tb.url) {
        AnchorEnd(tb, id);
        assert TextbookItem(table, id) == Anchor(tb, id);
      } else {
        var e := EscapeHtml(LabelOrId(tb, id));
        assert TextbookItem(table, id) == e;
        EscapeHtmlIsEscaped(LabelOrId(tb, id));
        assert !EndsWith(e, "</span>") by {
          if |e| >= 7 {
            assert !IsHtmlSpecial(e[|e| - 1]);
            assert e[|e| - 7..][6] == e[|e| - 1];
          }
        }
      }
    }
  }

  /** A resolved reference shows its escaped label, or its escaped id when the label is empty,
      whether or not it is linked and whatever its detail; with neither a url nor a detail the
      item is exactly that text. */
  lemma TextbookLabelFallsBackToId(table: seq<Option<TextbookReference>>, id: string)
    requires ById(table, TextbookId, id).Some?
    ensures var tb := ById(table, TextbookId, id).value;
      tb.labelText == "" ==> Contains(TextbookItem(table, id), EscapeHtml(id))
    ensures var tb := ById(table, TextbookId, id).value;
      tb.labelText != "" ==> Contains(TextbookItem(table, id), EscapeHtml(tb.labelText))
    ensures var tb := ById(table, TextbookId, id).value;
      !Truthy(tb.url) && !Truthy(tb.detail) ==>
        UnescapeHtml(TextbookItem(table, id)) == (if tb.labelText != "" then tb.labelText else id)
  {
    var tb := ById(table, TextbookId, id).value;
    var e := EscapeHtml(LabelOrId(tb, id));
    var d := DetailSuffix(tb);
    if Truthy(tb.url) {
      var head := AnchorOpen + EscapeAttr(tb.url.value) + "\" target=\"_blank\" rel=\"noopener noreferrer\">";
      assert Anchor(tb, id) == head + e + "</a>";
      ContainsInside(head, e, "</a>", d);
    } else {
      ContainsStart(e, d);
      if !Truthy(tb.detail) {
        assert d == [];
        assert e + d == e;
        EscapeHtmlRoundTrip(LabelOrId(tb, id));
      }
    }
  }

  // ---------- Homework and notes ----------

  /** `lesson.homework && String(lesson.homework).trim() !== ""`, then the escaped block. */
  function HomeworkBlock(l: Lesson): (r: Option<string>)
    ensures r.Some? <==> !AllWhitespace(l.homework)
    ensures r.Some? ==> IsEscaped(r.value) && UnescapeHtml(r.value) == l.homework
  {
    TrimEmptyIff(l.homework);
    if l.homework != "" && Trim(l.homework) != "" then
      EscapeHtmlIsEscaped(l.homework);
      EscapeHtmlRoundTrip(l.homework);
      Some(EscapeHtml(l.homework))
    else None
  }

  /** `lesson.notes_latex && String(lesson.notes_latex).trim() !== ""`, then the LaTeX-aware
      escape. */
  function NotesBlock(l: Lesson): (r: Option<string>)
    ensures r.Some? <==> !AllWhitespace(l.notesLatex)
    ensures r.Some? ==> r.value == EscapeHtmlAllowLatex(l.notesLatex)
    ensures r.Some? ==> IsEscaped(r.value)
    ensures r.Some? ==> Filter(r.value, NotBackslash) == Filter(EscapeHtml(l.notesLatex), NotBackslash)
  {
    TrimEmptyIff(l.notesLatex);
    if l.notesLatex != "" && Trim(l.notesLatex) != "" then
      Some(EscapeHtmlAllowLatex(l.notesLatex))
    else None
  }

  // ---------- The LaTeX-aware escaper ----------

  const Backslash: char := '\\'

  predicate NotBackslash(c: char) { c != Backslash }

  /** `.replaceAll("\\\\", "\\")`: each pair of backslashes, matched left to right without
      overlap, becomes one backslash. */
  function CollapseBackslashes(s: string): (r: string)
    ensures |r| <= |s|
  {
    if |s| >= 2 && s[0] == Backslash && s[1] == Backslash then [Backslash] + CollapseBackslashes(s[2..])
    else if s == [] then []
    else [s[0]] + CollapseBackslashes(s[1..])
  }

  /** `escapeHtmlAllowLatex(s)` of the student viewer: `escapeHtml`, then the backslash pairs
      collapsed. The result is still escaped text (no `<`, `>`, `"` or `'`, and each `&`
      begins an entity), and apart from backslashes it is exactly what `escapeHtml` writes. */
  function EscapeHtmlAllowLatex(s: string): (r: string)
    ensures IsEscaped(r)
    ensures Filter(r, NotBackslash) == Filter(EscapeHtml(s), NotBackslash)
  {
    EscapeHtmlIsEscaped(s);
    CollapseKeepsEscaped(EscapeHtml(s));
    CollapseKeepsOthers(EscapeHtml(s));
    CollapseBackslashes(EscapeHtml(s))
  }

  /** No two backslashes stand next to each other. */
  predicate NoDoubleBackslash(s: string) {
    forall i :: 0 <= i < |s| - 1 ==> !(s[i] == Backslash && s[i + 1] == Backslash)
  }

  /** Collapsing only deletes backslashes: every other character survives, in order. */
  lemma {:induction false} CollapseKeepsOthers(s: string)
    ensures Filter(CollapseBackslashes(s), NotBackslash) == Filter(s, NotBackslash)
  {
    if |s| >= 2 && s[0] == Backslash && s[1] == Backslash {
      CollapseKeepsOthers(s[2..]);
      assert s[1..][1..] == s[2..];
    } else if s != [] {
      CollapseKeepsOthers(s[1..]);
    }
  }

  /** A text without a double backslash passes through unchanged. */
  lemma {:induction false} CollapseIdentity(s: string)
    requires NoDoubleBackslash(s)
    ensures CollapseBackslashes(s) == s
  {
    if s != [] {
      CollapseIdentity(s[1..]);
    }
  }

  /** `n` backslashes in a row. */
  function Backslashes(n: nat): (r: string)
    ensures |r| == n
    ensures forall c :: c in r ==> c == Backslash
  {
    if n == 0 then [] else [Backslash] + Backslashes(n - 1)
  }

  /** The pairing rule on every input: a run of `n` backslashes, ended by the end of the text
      or by another character, leaves `(n + 1) / 2` backslashes (each pair becomes one, an odd
      last one stays), and the rest of the text is collapsed on its own. */
  lemma {:induction false} CollapseRun(n: nat, t: string)
    requires t == [] || t[0] != Backslash
    ensures CollapseBackslashes(Backslashes(n) + t) == Backslashes((n + 1) / 2) + CollapseBackslashes(t)
  {
    var s := Backslashes(n) + t;
    if n == 0 {
      assert s == t;
    } else if n == 1 {
      assert s == [Backslash] + t;
      assert !(|s| >= 2 && s[1] == Backslash);
      assert s[1..] == t;
    } else {
      assert Backslashes(n) == [Backslash, Backslash] + Backslashes(n - 2);
      assert s[2..] == Backslashes(n - 2) + t;
      assert CollapseBackslashes(s) == [Backslash] + CollapseBackslashes(s[2..]);
      CollapseRun(n - 2, t);
      assert Backslashes((n + 1) / 2) == [Backslash] + Backslashes((n - 1) / 2);
    }
  }

  /** Doubling every backslash and then collapsing gives the text back. */
  lemma {:induction false} CollapseUndoesDoubling(t: string)
    ensures CollapseBackslashes(ReplaceChar(t, Backslash, "\\\\")) == t
  {
    if t != [] {
      CollapseUndoesDoubling(t[1..]);
      var d := ReplaceChar(t[1..], Backslash, "\\\\");
      if t[0] == Backslash {
        assert ("\\\\" + d)[2..] == d;
      } else {
        assert ([t[0]] + d)[1..] == d;
      }
    }
  }

  /** The pairs are taken left to right without overlap: three backslashes become two. */
  lemma CollapseLeftToRight()
    ensures CollapseBackslashes("\\\\\\") == "\\\\"
  {
    assert "\\\\\\"[2..] == "\\";
    assert CollapseBackslashes("\\") == "\\";
  }

  /** The LaTeX line break, two backslashes, comes out of the LaTeX-aware escaper as a single
      backslash. */
  lemma LatexLineBreakCollapses()
    ensures EscapeHtmlAllowLatex("\\\\") == "\\"
  {
    var s := "\\\\";
    EscapeHtmlIsEscapeEach(s);
    assert s[1..] == "\\";
    assert EscapeEach("\\") == "\\";
    assert EscapeEach(s) == s;
    assert s[2..] == [];
  }

  lemma {:induction false} CollapsePrefix(e: string, t: string)
    requires Backslash !in e
    ensures CollapseBackslashes(e + t) == e + CollapseBackslashes(t)
  {
    if e == [] {
      assert e + t == t;
    } else {
      assert (e + t)[1..] == e[1..] + t;
      CollapsePrefix(e[1..], t);
    }
  }

  lemma EscapedSuffix(s: string, k: nat)
    requires IsEscaped(s) && k <= |s|
    ensures IsEscaped(s[k..])
  {
    var t := s[k..];
    forall i | 0 <= i < |t| && t[i] == '&' ensures StartsWithEntity(t[i..]) {
      assert s[k + i] == '&';
      assert t[i..] == s[k + i..];
    }
  }

  /** The five entities are escaped text. */
  lemma EntitiesEscaped()
    ensures IsEscaped("&amp;") && IsEscaped("&lt;") && IsEscaped("&gt;")
    ensures IsEscaped("&quot;") && IsEscaped("&#39;")
  {
    EscapeCharEscaped('&');
    EscapeCharEscaped('<');
    EscapeCharEscaped('>');
    EscapeCharEscaped('"');
    EscapeCharEscaped('\'');
  }

  /** An escaped text that starts with `&` starts with one of the five entities, each of
      which is escaped, backslash-free text. */
  lemma LeadingEntity(s: string) returns (e: string)
    requires IsEscaped(s) && s != [] && s[0] == '&'
    ensures e <= s && e != [] && Backslash !in e && IsEscaped(e)
  {
    assert StartsWithEntity(s) by {
      assert s[0..] == s;
    }
    EntitiesEscaped();
    if "&amp;" <= s { e := "&amp;"; }
    else if "&lt;" <= s { e := "&lt;"; }
    else if "&gt;" <= s { e := "&gt;"; }
    else if "&quot;" <= s { e := "&quot;"; }
    else { e := "&#39;"; }
  }

  /** Collapsing backslashes keeps a text escaped. */
  lemma {:induction false} CollapseKeepsEscaped(s: string)
    requires IsEscaped(s)
    ensures IsEscaped(CollapseBackslashes(s))
    decreases |s|
  {
    if |s| >= 2 && s[0] == Backslash && s[1] == Backslash {
      EscapedSuffix(s, 2);
      CollapseKeepsEscaped(s[2..]);
      EscapedConcat([Backslash], CollapseBackslashes(s[2..]));
    } else if s != [] && s[0] != '&' {
      EscapedSuffix(s, 1);
      CollapseKeepsEscaped(s[1..]);
      assert !IsHtmlSpecial(s[0]);
      EscapedConcat([s[0]], CollapseBackslashes(s[1..]));
    } else if s != [] {
      var e := LeadingEntity(s);
      var t := s[|e|..];
      assert s == e + t;
      EscapedSuffix(s, |e|);
      CollapseKeepsEscaped(t);
      CollapsePrefix(e, t);
      EscapedConcat(e, CollapseBackslashes(t));
    }
  }

  // ---------- The attribute escaper ----------

  /** `escapeAttr(s)`: `"` becomes `%22`, then `'` becomes `%27`. */
  function EscapeAttr(s: string): (r: string)
    ensures '"' !in r && '\'' !in r
  {
    ReplaceChar(ReplaceChar(s, '"', "%22"), '\'', "%27")
  }

  /** What one character becomes in an attribute. */
  function AttrChar(c: char): string {
    if c == '"' then "%22" else if c == '\'' then "%27" else [c]
  }

  lemma EscapeAttrChar(c: char)
    ensures EscapeAttr([c]) == AttrChar(c)
  {
    ReplaceCharSingle(c, '"', "%22");
    if c == '"' {
      ReplaceCharAbsent("%22", '\'', "%27");
    } else {
      ReplaceCharSingle(c, '\'', "%27");
    }
  }

  lemma EscapeAttrAppend(a: string, b: string)
    ensures EscapeAttr(a + b) == EscapeAttr(a) + EscapeAttr(b)
  {
    ReplaceCharAppend(a, b, '"', "%22");
    ReplaceCharAppend(ReplaceChar(a, '"', "%22"), ReplaceChar(b, '"', "%22"), '\'', "%27");
  }

  /** Every character other than a quote is kept as it is and in its place in the order; each
      quote is replaced by its percent code. */
  lemma {:induction false} EscapeAttrIsPerCharacter(s: string)
    ensures s != [] ==> EscapeAttr(s) == AttrChar(s[0]) + EscapeAttr(s[1..])
    ensures (forall i :: 0 <= i < |s| ==> s[i] != '"' && s[i] != '\'') ==> EscapeAttr(s) == s
  {
    if s != [] {
      assert s == [s[0]] + s[1..];
      EscapeAttrAppend([s[0]], s[1..]);
      EscapeAttrChar(s[0]);
      EscapeAttrIsPerCharacter(s[1..]);
    } else {
      assert EscapeAttr(s) == [];
    }
  }

  /** The escaping is minimal: `%` is left alone, so a quote and its percent code read the same
      afterwards. */
  lemma EscapeAttrMergesQuoteAndCode()
    ensures EscapeAttr("\"") == EscapeAttr("%22")
  {
    EscapeAttrChar('"');
    EscapeAttrIsPerCharacter("%22");
  }
}
