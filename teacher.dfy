/** The teacher editor's in-memory edit model: the loaded plan, the selection triple of
    nullable indices, and the handlers that change them (add a week or a lesson, move or delete
    the selected lesson, attach or remove syllabus and textbook ids), together with the
    selection getters and the reference-table search. Each handler is specified by a step
    function on the pair (plan, selection); the class `Editor` below performs the handlers on
    its two fields and its methods are proved to take exactly those steps. */
module Teacher {
  import opened PlanModel
  import opened Strings
  import opened Seqs

  /** `selected = {termIndex, weekIndex, lessonIndex}`; `None` is JavaScript's `null`. */
  datatype Selection = Selection(termIndex: Option<nat>, weekIndex: Option<nat>, lessonIndex: Option<nat>)

  /** What `resetSelection` writes: first term, first week, no lesson. */
  const ResetSelected := Selection(Some(0), Some(0), None)

  datatype EditorState = EditorState(plan: Plan, selected: Selection)

  // ---------- Selection getters ----------

  /** `selected.termIndex ?? 0` */
  function TermIndex(sel: Selection): nat { sel.termIndex.GetOr(0) }

  /** `selected.weekIndex ?? 0` */
  function WeekIndex(sel: Selection): nat { sel.weekIndex.GetOr(0) }

  predicate HasWeek(p: Plan, t: nat, w: nat) {
    t < |p.terms| && w < |p.terms[t].weeks|
  }

  /** `getSelectedTerm()`: the term at the term index, a null index read as 0. */
  function SelectedTerm(p: Plan, sel: Selection): (r: Option<Term>)
    ensures r.Some? <==> (if sel.termIndex.None? then |p.terms| > 0 else sel.termIndex.value < |p.terms|)
    ensures r.Some? ==> r.value == p.terms[TermIndex(sel)]
  {
    var t := TermIndex(sel);
    if t < |p.terms| then Some(p.terms[t]) else None
  }

  /** `getSelectedWeek()`: the week on the path, null if the term or the week is missing. */
  function SelectedWeek(p: Plan, sel: Selection): (r: Option<Week>)
    ensures r.Some? <==> HasWeek(p, TermIndex(sel), WeekIndex(sel))
    ensures r.Some? ==> r.value == p.terms[TermIndex(sel)].weeks[WeekIndex(sel)]
  {
    match SelectedTerm(p, sel)
    case None => None
    case Some(term) =>
      var w := WeekIndex(sel);
      if w < |term.weeks| then Some(term.weeks[w]) else None
  }

  /** `getSelectedLesson()`: null when no lesson index is set or when any index on the path
      is out of range; a null term or week index is read as 0. */
  function SelectedLesson(p: Plan, sel: Selection): (r: Option<Lesson>)
    ensures r.Some? <==>
      sel.lessonIndex.Some? && HasWeek(p, TermIndex(sel), WeekIndex(sel))
      && sel.lessonIndex.value < |p.terms[TermIndex(sel)].weeks[WeekIndex(sel)].lessons|
    ensures r.Some? ==> r.value == p.terms[TermIndex(sel)].weeks[WeekIndex(sel)].lessons[sel.lessonIndex.value]
  {
    match SelectedWeek(p, sel)
    case None => None
    case Some(week) =>
      if sel.lessonIndex.None? then None
      else if sel.lessonIndex.value < |week.lessons| then Some(week.lessons[sel.lessonIndex.value])
      else None
  }

  /** The editor's standing invariant: a lesson index, when set, names an existing lesson. */
  predicate SelectionValid(s: EditorState) {
    s.selected.lessonIndex.Some? ==> SelectedLesson(s.plan, s.selected).Some?
  }

  // ---------- Which tree node is outlined ----------

  datatype TreeNode = TermNode(t: nat) | WeekNode(t: nat, w: nat) | LessonNode(t: nat, w: nat, l: nat)

  /** The nodes `renderTree` draws, one per term, week and lesson. */
  function TreeNodes(p: Plan): set<TreeNode> {
    (set t | 0 <= t < |p.terms| :: TermNode(t))
    + (set t, w | 0 <= t < |p.terms| && 0 <= w < |p.terms[t].weeks| :: WeekNode(t, w))
    + (set t, w, l | 0 <= t < |p.terms| && 0 <= w < |p.terms[t].weeks|
                     && 0 <= l < |p.terms[t].weeks[w].lessons| :: LessonNode(t, w, l))
  }

  /** `isTermSelected`, `isWeekSelected` and `isLessonSelected`. */
  function Outlined(sel: Selection, n: TreeNode): (b: bool)
    ensures b <==> n == OutlinedNode(sel) && sel.termIndex.Some?
                   && (sel.weekIndex.None? ==> sel.lessonIndex.None?)
  {
    match n
    case TermNode(t) => sel.termIndex == Some(t) && sel.weekIndex.None? && sel.lessonIndex.None?
    case WeekNode(t, w) => sel.termIndex == Some(t) && sel.weekIndex == Some(w) && sel.lessonIndex.None?
    case LessonNode(t, w, l) => sel.termIndex == Some(t) && sel.weekIndex == Some(w) && sel.lessonIndex == Some(l)
  }

  /** The one node a selection can outline. */
  function OutlinedNode(sel: Selection): TreeNode {
    if sel.weekIndex.None? then TermNode(TermIndex(sel))
    else if sel.lessonIndex.None? then WeekNode(TermIndex(sel), WeekIndex(sel))
    else LessonNode(TermIndex(sel), WeekIndex(sel), sel.lessonIndex.value)
  }

  /** Whatever the selection, at most one node of the rendered tree is outlined as selected. */
  lemma AtMostOneOutlined(p: Plan, sel: Selection)
    ensures |set n | n in TreeNodes(p) && Outlined(sel, n)| <= 1
  {
    var marked := set n | n in TreeNodes(p) && Outlined(sel, n);
    assert marked <= {OutlinedNode(sel)} by {
      forall n | n in marked ensures n == OutlinedNode(sel) {
        match n
        case TermNode(_) =>
        case WeekNode(_, _) =>
        case LessonNode(_, _, _) =>
      }
    }
    SubsetCardinality(marked, {OutlinedNode(sel)});
  }

  // ---------- Attaching and removing ids ----------

  /** `if (!ids.includes(id)) ids.push(id)`: appends the id only when it is absent. */
  function AddId(ids: seq<string>, id: string): (r: seq<string>)
    ensures forall x :: x in r <==> x in ids || x == id
    ensures ids <= r && |r| <= |ids| + 1
    ensures NoDuplicates(ids) ==> NoDuplicates(r)
    ensures id in ids ==> r == ids
    ensures id !in ids ==> r == ids + [id]
  {
    if id in ids then ids else ids + [id]
  }

  /** `ids.filter(x => x !== id)`: drops every occurrence of the id, keeping the rest in order. */
  function RemoveId(ids: seq<string>, id: string): (r: seq<string>)
    ensures id !in r
    ensures multiset(r) == multiset(ids)[id := 0]
    ensures IsSubsequence(r, ids)
  {
    if ids == [] then []
    else
      assert ids == [ids[0]] + ids[1..];
      if ids[0] == id then RemoveId(ids[1..], id)
      else [ids[0]] + RemoveId(ids[1..], id)
  }

  /** Adding an id twice is the same as adding it once. */
  lemma AddIdIdempotent(ids: seq<string>, id: string)
    ensures AddId(AddId(ids, id), id) == AddId(ids, id)
  {
  }

  lemma {:induction false} RemoveIdAbsent(ids: seq<string>, id: string)
    requires id !in ids
    ensures RemoveId(ids, id) == ids
  {
    if ids != [] {
      RemoveIdAbsent(ids[1..], id);
    }
  }

  lemma {:induction false} RemoveIdAppend(ids: seq<string>, x: string, id: string)
    ensures RemoveId(ids + [x], id) == RemoveId(ids, id) + (if x == id then [] else [x])
  {
    if ids == [] {
      assert ids + [x] == [x];
    } else {
      assert (ids + [x])[1..] == ids[1..] + [x];
      RemoveIdAppend(ids[1..], x, id);
    }
  }

  /** Removing an id undoes adding it: when the id was absent, the list comes back unchanged;
      in any case the result is what removing from the original list gives. */
  lemma AddThenRemoveId(ids: seq<string>, id: string)
    ensures RemoveId(AddId(ids, id), id) == RemoveId(ids, id)
    ensures id !in ids ==> RemoveId(AddId(ids, id), id) == ids
  {
    if id !in ids {
      RemoveIdAppend(ids, id, id);
      RemoveIdAbsent(ids, id);
    }
  }

  // ---------- Reference-table search ----------

  /** The number of search results shown: `.slice(0, 60)`. */
  const SearchLimit := 60

  /** The filter callback of both searches: the row's text matches the query. */
  function RowMatches<T>(text: T -> string, q: string): T -> bool {
    (x: T) => Matches(q, text(x))
  }

  /** The search of `renderSyllabusSearch` and `renderTextbookSearch`: rows whose text matches
      the trimmed, lowercased query, then the first 60 of them. */
  function Search<T>(table: seq<T>, text: T -> string, input: string): (r: seq<T>)
    ensures var hits := Filter(table, RowMatches(text, Query(input)));
      r <= hits && |r| == Min(SearchLimit, |hits|)
    ensures |r| <= SearchLimit
    ensures IsSubsequence(r, table)
    ensures forall i :: 0 <= i < |r| ==> Matches(Query(input), text(r[i]))
    ensures Query(input) == "" ==> r == Take(table, SearchLimit)
    ensures |r| < SearchLimit ==> forall x :: x in table && Matches(Query(input), text(x)) ==> x in r
  {
    var q := Query(input);
    var keep := RowMatches(text, q);
    var hits := Filter(table, keep);
    FilterIsSubsequence(table, keep);
    PrefixOfSubsequence(hits, table, Min(SearchLimit, |hits|));
    assert q == "" ==> hits == table by {
      if q == "" { FilterKeepsAll(table, keep); }
    }
    assert forall x :: x in table && keep(x) ==> x in hits by {
      forall x | x in table && keep(x) ensures x in hits { FilterMembership(table, keep, x); }
    }
    Take(hits, SearchLimit)
  }

  /** The syllabus search (`${id} ${section} ${topic} ${text}`). */
  function SearchSyllabus(table: seq<SyllabusObjective>, input: string): (r: seq<SyllabusObjective>)
    ensures |r| <= SearchLimit && IsSubsequence(r, table)
    ensures forall i :: 0 <= i < |r| ==> Matches(Query(input), ObjectiveSearchText(r[i]))
    ensures Query(input) == "" ==> r == Take(table, SearchLimit)
    ensures var hits := Filter(table, RowMatches(ObjectiveSearchText, Query(input)));
      r <= hits && |r| == Min(SearchLimit, |hits|)
    ensures |r| < SearchLimit ==>
      forall x :: x in table && Matches(Query(input), ObjectiveSearchText(x)) ==> x in r
  {
    Search(table, ObjectiveSearchText, input)
  }

  /** The textbook search (`${id} ${textbook} ${label} ${detail}`). */
  function SearchTextbooks(table: seq<TextbookReference>, input: string): (r: seq<TextbookReference>)
    ensures |r| <= SearchLimit && IsSubsequence(r, table)
    ensures forall i :: 0 <= i < |r| ==> Matches(Query(input), TextbookSearchText(r[i]))
    ensures Query(input) == "" ==> r == Take(table, SearchLimit)
    ensures var hits := Filter(table, RowMatches(TextbookSearchText, Query(input)));
      r <= hits && |r| == Min(SearchLimit, |hits|)
    ensures |r| < SearchLimit ==>
      forall x :: x in table && Matches(Query(input), TextbookSearchText(x)) ==> x in r
  {
    Search(table, TextbookSearchText, input)
  }

  // ---------- Step functions of the handlers ----------

  /** The plan with the lessons of week `w` of term `t` replaced; nothing else changes. */
  function WithLessons(p: Plan, t: nat, w: nat, ls: seq<Lesson>): (r: Plan)
    requires HasWeek(p, t, w)
    ensures |r.terms| == |p.terms| && r.classId == p.classId && r.labelText == p.labelText
    ensures forall i :: 0 <= i < |p.terms| && i != t ==> r.terms[i] == p.terms[i]
    ensures r.terms[t].termId == p.terms[t].termId && r.terms[t].labelText == p.terms[t].labelText
    ensures |r.terms[t].weeks| == |p.terms[t].weeks|
    ensures forall j :: 0 <= j < |p.terms[t].weeks| && j != w ==> r.terms[t].weeks[j] == p.terms[t].weeks[j]
    ensures r.terms[t].weeks[w] == p.terms[t].weeks[w].(lessons := ls)
  {
    var term := p.terms[t];
    p.(terms := p.terms[t := term.(weeks := term.weeks[w := term.weeks[w].(lessons := ls)])])
  }

  lemma WithLessonsUnchanged(p: Plan, t: nat, w: nat)
    requires HasWeek(p, t, w)
    ensures WithLessons(p, t, w, p.terms[t].weeks[w].lessons) == p
  {
    var term := p.terms[t];
    assert term.weeks[w := term.weeks[w]] == term.weeks;
    assert term.(weeks := term.weeks) == term;
    assert p.terms[t := term] == p.terms;
  }

  lemma WithLessonsTwice(p: Plan, t: nat, w: nat, a: seq<Lesson>, b: seq<Lesson>)
    requires HasWeek(p, t, w)
    ensures WithLessons(WithLessons(p, t, w, a), t, w, b) == WithLessons(p, t, w, b)
  {
    var q := WithLessons(p, t, w, a);
    var r1, r2 := WithLessons(q, t, w, b), WithLessons(p, t, w, b);
    assert r1.terms[t].weeks == r2.terms[t].weeks;
    assert r1.terms[t] == r2.terms[t];
    assert r1.terms == r2.terms;
  }

  /** The `week_id` `addWeekToSelectedTerm` generates for the `n`-th week of term `t`:
      `${term.term_id || `T${t + 1}`}-W${n}`. */
  function WeekIdFor(term: Term, t: nat, n: nat): string {
    (if term.termId != "" then term.termId else "T" + NatToString(t + 1)) + "-W" + NatToString(n)
  }

  function NewWeek(term: Term, t: nat, n: nat): Week {
    Week(WeekIdFor(term, t, n), "Week " + NatToString(n), [])
  }

  /** `addWeekToSelectedTerm`: a no-op when the selected term (null read as 0) is missing;
      otherwise one new empty week is appended to it and becomes the selection. */
  function AddWeekStep(s: EditorState): (r: EditorState)
    ensures TermIndex(s.selected) >= |s.plan.terms| ==> r == s
    ensures TermIndex(s.selected) < |s.plan.terms| ==>
      var t := TermIndex(s.selected);
      var old_weeks := s.plan.terms[t].weeks;
      && |r.plan.terms| == |s.plan.terms|
      && (forall i :: 0 <= i < |s.plan.terms| && i != t ==> r.plan.terms[i] == s.plan.terms[i])
      && r.plan.classId == s.plan.classId && r.plan.labelText == s.plan.labelText
      && r.plan.terms[t].termId == s.plan.terms[t].termId
      && r.plan.terms[t].labelText == s.plan.terms[t].labelText
      && r.plan.terms[t].weeks == old_weeks + [NewWeek(s.plan.terms[t], t, |old_weeks| + 1)]
      && r.selected == s.selected.(weekIndex := Some(|old_weeks|), lessonIndex := None)
    ensures SelectionValid(s) ==> SelectionValid(r)
  {
    var t := TermIndex(s.selected);
    if t >= |s.plan.terms| then s
    else
      var term := s.plan.terms[t];
      var n := |term.weeks|;
      var term' := term.(weeks := term.weeks + [NewWeek(term, t, n + 1)]);
      EditorState(s.plan.(terms := s.plan.terms[t := term']),
                  s.selected.(weekIndex := Some(n), lessonIndex := None))
  }

  /** After adding a week, the selected week is the new one and no lesson is selected. */
  lemma AddWeekSelectsNewWeek(s: EditorState)
    requires TermIndex(s.selected) < |s.plan.terms|
    ensures var t := TermIndex(s.selected);
      var r := AddWeekStep(s);
      && SelectedWeek(r.plan, r.selected) == Some(NewWeek(s.plan.terms[t], t, |s.plan.terms[t].weeks| + 1))
      && SelectedLesson(r.plan, r.selected).None?
  {
  }

  /** Every week of term `t` carries the id `addWeekToSelectedTerm` would have given it. */
  predicate GeneratedWeekIds(term: Term, t: nat) {
    forall i :: 0 <= i < |term.weeks| ==> term.weeks[i].weekId == WeekIdFor(term, t, i + 1)
  }

  lemma WeekIdForInjective(term: Term, t: nat, n: nat, m: nat)
    requires WeekIdFor(term, t, n) == WeekIdFor(term, t, m)
    ensures n == m
  {
    var prefix := (if term.termId != "" then term.termId else "T" + NatToString(t + 1)) + "-W";
    assert WeekIdFor(term, t, n) == prefix + NatToString(n);
    assert WeekIdFor(term, t, m) == prefix + NatToString(m);
    SamePrefixCancels(prefix, NatToString(n), NatToString(m));
    NatToStringInjective(n, m);
  }

  /** In a term whose weeks were all created by the editor, adding a week keeps that so, and
      the week ids stay pairwise distinct. */
  lemma AddWeekKeepsIdsDistinct(s: EditorState)
    requires TermIndex(s.selected) < |s.plan.terms|
    requires GeneratedWeekIds(s.plan.terms[TermIndex(s.selected)], TermIndex(s.selected))
    ensures var t := TermIndex(s.selected);
      var term' := AddWeekStep(s).plan.terms[t];
      && GeneratedWeekIds(term', t)
      && forall i, j :: 0 <= i < j < |term'.weeks| ==> term'.weeks[i].weekId != term'.weeks[j].weekId
  {
    var t := TermIndex(s.selected);
    var term := s.plan.terms[t];
    var term' := AddWeekStep(s).plan.terms[t];
    assert term'.termId == term.termId;
    assert forall n :: WeekIdFor(term', t, n) == WeekIdFor(term, t, n);
    forall i, j | 0 <= i < j < |term'.weeks| ensures term'.weeks[i].weekId != term'.weeks[j].weekId {
      if term'.weeks[i].weekId == term'.weeks[j].weekId {
        WeekIdForInjective(term, t, i + 1, j + 1);
      }
    }
  }

  /** The lesson `addLessonToSelectedWeek` creates as the `n`-th of its week. */
  function NewLesson(n: nat): Lesson {
    Lesson("L" + NatToString(n), "New Lesson " + NatToString(n), [], [], "", "")
  }

  /** `addLessonToSelectedWeek`: a no-op when the selected term or week (null read as 0) is
      missing; otherwise one new lesson is appended to that week and becomes the selection. */
  function AddLessonStep(s: EditorState): (r: EditorState)
    ensures !HasWeek(s.plan, TermIndex(s.selected), WeekIndex(s.selected)) ==> r == s
    ensures HasWeek(s.plan, TermIndex(s.selected), WeekIndex(s.selected)) ==>
      var t, w := TermIndex(s.selected), WeekIndex(s.selected);
      var ls := s.plan.terms[t].weeks[w].lessons;
      && r.plan == WithLessons(s.plan, t, w, ls + [NewLesson(|ls| + 1)])
      && r.selected == s.selected.(lessonIndex := Some(|ls|))
      && SelectedLesson(r.plan, r.selected) == Some(NewLesson(|ls| + 1))
    ensures SelectionValid(s) ==> SelectionValid(r)
  {
    var t, w := TermIndex(s.selected), WeekIndex(s.selected);
    if !HasWeek(s.plan, t, w) then s
    else
      var ls := s.plan.terms[t].weeks[w].lessons;
      EditorState(WithLessons(s.plan, t, w, ls + [NewLesson(|ls| + 1)]),
                  s.selected.(lessonIndex := Some(|ls|)))
  }

  /** `moveLesson(delta)`: a no-op when no lesson is selected, when the week is missing, or
      when `lessonIndex + delta` is outside the week; otherwise the selected lesson trades
      places with the one `delta` away and the selection follows it. */
  function MoveLessonStep(s: EditorState, delta: int): (r: EditorState)
    requires SelectionValid(s)
    ensures s.selected.lessonIndex.None? ==> r == s
    ensures s.selected.lessonIndex.Some? ==>
      var t, w, l := TermIndex(s.selected), WeekIndex(s.selected), s.selected.lessonIndex.value;
      var ls := s.plan.terms[t].weeks[w].lessons;
      if l + delta < 0 || l + delta >= |ls| then r == s
      else
        && r.plan == WithLessons(s.plan, t, w, Swap(ls, l, l + delta))
        && r.selected == s.selected.(lessonIndex := Some(l + delta))
    ensures SelectionValid(r)
    ensures SelectedLesson(r.plan, r.selected) == SelectedLesson(s.plan, s.selected)
  {
    if s.selected.lessonIndex.None? then s
    else
      var t, w, l := TermIndex(s.selected), WeekIndex(s.selected), s.selected.lessonIndex.value;
      var ls := s.plan.terms[t].weeks[w].lessons;
      var j := l + delta;
      if j < 0 || j >= |ls| then s
      else EditorState(WithLessons(s.plan, t, w, Swap(ls, l, j)), s.selected.(lessonIndex := Some(j)))
  }

  /** Moving the selected lesson by `delta` and then by `-delta` restores the plan and the
      selection, so `moveLesson(+1)` followed by `moveLesson(-1)` is the identity. */
  lemma MoveLessonRoundTrip(s: EditorState, delta: int)
    requires SelectionValid(s) && s.selected.lessonIndex.Some?
    requires 0 <= s.selected.lessonIndex.value + delta
             < |s.plan.terms[TermIndex(s.selected)].weeks[WeekIndex(s.selected)].lessons|
    ensures MoveLessonStep(MoveLessonStep(s, delta), -delta) == s
  {
    var t, w, l := TermIndex(s.selected), WeekIndex(s.selected), s.selected.lessonIndex.value;
    var j := l + delta;
    var ls := s.plan.terms[t].weeks[w].lessons;
    var m := MoveLessonStep(s, delta);
    assert m == EditorState(WithLessons(s.plan, t, w, Swap(ls, l, j)), s.selected.(lessonIndex := Some(j)));
    assert m.plan.terms[t].weeks[w].lessons == Swap(ls, l, j);
    SwapTwice(ls, l, j);
    WithLessonsTwice(s.plan, t, w, Swap(ls, l, j), ls);
    WithLessonsUnchanged(s.plan, t, w);
  }

  /** `deleteLesson`: a no-op when the selected week (null indices read as 0) is missing or no
      lesson is selected; otherwise the selected lesson is spliced out and the lesson index
      is cleared. */
  function DeleteLessonStep(s: EditorState): (r: EditorState)
    ensures SelectedWeek(s.plan, s.selected).None? || s.selected.lessonIndex.None? ==> r == s
    ensures SelectedWeek(s.plan, s.selected).Some? && s.selected.lessonIndex.Some? ==>
      var t, w, l := TermIndex(s.selected), WeekIndex(s.selected), s.selected.lessonIndex.value;
      var ls := s.plan.terms[t].weeks[w].lessons;
      && r.plan == WithLessons(s.plan, t, w, RemoveAt(ls, l))
      && (l >= |ls| ==> r.plan == s.plan)
      && r.selected == s.selected.(lessonIndex := None)
    ensures SelectionValid(s) ==> SelectionValid(r)
  {
    if SelectedWeek(s.plan, s.selected).None? || s.selected.lessonIndex.None? then s
    else
      var t, w, l := TermIndex(s.selected), WeekIndex(s.selected), s.selected.lessonIndex.value;
      var ls := s.plan.terms[t].weeks[w].lessons;
      assert l >= |ls| ==> WithLessons(s.plan, t, w, RemoveAt(ls, l)) == s.plan by {
        if l >= |ls| { WithLessonsUnchanged(s.plan, t, w); }
      }
      EditorState(WithLessons(s.plan, t, w, RemoveAt(ls, l)), s.selected.(lessonIndex := None))
  }

  /** Deleting the only lesson of a week leaves an empty (not missing) lesson list, and the
      next added lesson is `L1` again. */
  lemma DeleteOnlyLessonThenAdd(s: EditorState)
    requires SelectionValid(s) && s.selected.lessonIndex == Some(0)
    requires |s.plan.terms[TermIndex(s.selected)].weeks[WeekIndex(s.selected)].lessons| == 1
    ensures var t, w := TermIndex(s.selected), WeekIndex(s.selected);
      && DeleteLessonStep(s).plan.terms[t].weeks[w].lessons == []
      && AddLessonStep(DeleteLessonStep(s)).plan.terms[t].weeks[w].lessons == [NewLesson(1)]
  {
  }

  /** Deleting the first of two lessons and adding one leaves the second lesson followed by
      the new lesson numbered 2. */
  lemma DeleteFirstOfTwoThenAdd(s: EditorState)
    requires SelectionValid(s) && s.selected.lessonIndex == Some(0)
    requires |s.plan.terms[TermIndex(s.selected)].weeks[WeekIndex(s.selected)].lessons| == 2
    ensures var t, w := TermIndex(s.selected), WeekIndex(s.selected);
      AddLessonStep(DeleteLessonStep(s)).plan.terms[t].weeks[w].lessons
        == [s.plan.terms[t].weeks[w].lessons[1], NewLesson(2)]
  {
    var t, w := TermIndex(s.selected), WeekIndex(s.selected);
    var ls := s.plan.terms[t].weeks[w].lessons;
    var d := DeleteLessonStep(s);
    assert d.plan.terms[t].weeks[w].lessons == RemoveAt(ls, 0) == [ls[1]];
    assert TermIndex(d.selected) == t && WeekIndex(d.selected) == w;
  }

  lemma SecondLessonId()
    ensures NewLesson(2).lessonId == "L2"
  {
    assert NatToString(2) == [DigitChar(2)] == "2";
  }

  /** Lesson ids are generated from the week's length, so when a week holds the editor-made
      lessons `L1` and `L2`, deleting `L1` and adding a lesson leaves two lessons with the same
      id `L2`. */
  lemma DeleteThenAddRepeatsLessonId(s: EditorState)
    requires SelectionValid(s) && s.selected.lessonIndex == Some(0)
    requires s.plan.terms[TermIndex(s.selected)].weeks[WeekIndex(s.selected)].lessons == [NewLesson(1), NewLesson(2)]
    ensures var ls := AddLessonStep(DeleteLessonStep(s)).plan.terms[TermIndex(s.selected)].weeks[WeekIndex(s.selected)].lessons;
      |ls| == 2 && ls[0].lessonId == ls[1].lessonId == "L2"
  {
    DeleteFirstOfTwoThenAdd(s);
    SecondLessonId();
  }

  /** Which of a lesson's two id lists a chip or an "Add" button edits. */
  datatype IdList = SyllabusList | TextbookList

  function IdsOf(l: Lesson, which: IdList): seq<string> {
    if which == SyllabusList then l.syllabusIds else l.textbookIds
  }

  function WithIds(l: Lesson, which: IdList, ids: seq<string>): (r: Lesson)
    ensures IdsOf(r, which) == ids
    ensures IdsOf(r, if which == SyllabusList then TextbookList else SyllabusList)
            == IdsOf(l, if which == SyllabusList then TextbookList else SyllabusList)
    ensures r.lessonId == l.lessonId && r.title == l.title
    ensures r.homework == l.homework && r.notesLatex == l.notesLatex
  {
    if which == SyllabusList then l.(syllabusIds := ids) else l.(textbookIds := ids)
  }

  /** The state with the selected lesson replaced by `l`; nothing else changes. */
  function ReplaceSelectedLesson(s: EditorState, l: Lesson): (r: EditorState)
    requires SelectedLesson(s.plan, s.selected).Some?
    ensures r.selected == s.selected
    ensures SelectedLesson(r.plan, r.selected) == Some(l)
    ensures var t, w, i := TermIndex(s.selected), WeekIndex(s.selected), s.selected.lessonIndex.value;
      var ls := s.plan.terms[t].weeks[w].lessons;
      r.plan == WithLessons(s.plan, t, w, ls[i := l])
  {
    var t, w, i := TermIndex(s.selected), WeekIndex(s.selected), s.selected.lessonIndex.value;
    var ls := s.plan.terms[t].weeks[w].lessons;
    EditorState(WithLessons(s.plan, t, w, ls[i := l]), s.selected)
  }

  lemma ReplaceSelectedLessonTwice(s: EditorState, a: Lesson, b: Lesson)
    requires SelectedLesson(s.plan, s.selected).Some?
    ensures ReplaceSelectedLesson(ReplaceSelectedLesson(s, a), b) == ReplaceSelectedLesson(s, b)
  {
    var t, w, i := TermIndex(s.selected), WeekIndex(s.selected), s.selected.lessonIndex.value;
    var ls := s.plan.terms[t].weeks[w].lessons;
    assert ls[i := a][i := b] == ls[i := b];
    WithLessonsTwice(s.plan, t, w, ls[i := a], ls[i := b]);
  }

  lemma ReplaceSelectedLessonSame(s: EditorState)
    requires SelectedLesson(s.plan, s.selected).Some?
    ensures ReplaceSelectedLesson(s, SelectedLesson(s.plan, s.selected).value) == s
  {
    var t, w, i := TermIndex(s.selected), WeekIndex(s.selected), s.selected.lessonIndex.value;
    var ls := s.plan.terms[t].weeks[w].lessons;
    assert ls[i := ls[i]] == ls;
    WithLessonsUnchanged(s.plan, t, w);
  }

  /** The "Add" button of a search result: the id is appended to the selected lesson's list
      unless it is already there. With no lesson selected the editor form, and the button with
      it, is hidden, so nothing changes. */
  function AttachId(s: EditorState, which: IdList, id: string): (r: EditorState)
    ensures SelectedLesson(s.plan, s.selected).None? ==> r == s
    ensures SelectedLesson(s.plan, s.selected).Some? ==>
      var l := SelectedLesson(s.plan, s.selected).value;
      && r == ReplaceSelectedLesson(s, WithIds(l, which, AddId(IdsOf(l, which), id)))
      && id in IdsOf(SelectedLesson(r.plan, r.selected).value, which)
      && (NoDuplicates(IdsOf(l, which)) ==> NoDuplicates(IdsOf(SelectedLesson(r.plan, r.selected).value, which)))
    ensures SelectionValid(s) ==> SelectionValid(r)
  {
    match SelectedLesson(s.plan, s.selected)
    case None => s
    case Some(l) => ReplaceSelectedLesson(s, WithIds(l, which, AddId(IdsOf(l, which), id)))
  }

  /** The "×" button of a chip: every occurrence of the id leaves the selected lesson's list,
      the other ids keep their order. */
  function DetachId(s: EditorState, which: IdList, id: string): (r: EditorState)
    ensures SelectedLesson(s.plan, s.selected).None? ==> r == s
    ensures SelectedLesson(s.plan, s.selected).Some? ==>
      var l := SelectedLesson(s.plan, s.selected).value;
      && r == ReplaceSelectedLesson(s, WithIds(l, which, RemoveId(IdsOf(l, which), id)))
      && id !in IdsOf(SelectedLesson(r.plan, r.selected).value, which)
      && IsSubsequence(IdsOf(SelectedLesson(r.plan, r.selected).value, which), IdsOf(l, which))
    ensures SelectionValid(s) ==> SelectionValid(r)
  {
    match SelectedLesson(s.plan, s.selected)
    case None => s
    case Some(l) => ReplaceSelectedLesson(s, WithIds(l, which, RemoveId(IdsOf(l, which), id)))
  }

  /** Pressing "Add" twice for the same id changes nothing the second time. */
  lemma AttachIdIdempotent(s: EditorState, which: IdList, id: string)
    ensures AttachId(AttachId(s, which, id), which, id) == AttachId(s, which, id)
  {
    if SelectedLesson(s.plan, s.selected).Some? {
      var l := SelectedLesson(s.plan, s.selected).value;
      var l1 := WithIds(l, which, AddId(IdsOf(l, which), id));
      AddIdIdempotent(IdsOf(l, which), id);
      assert WithIds(l1, which, AddId(IdsOf(l1, which), id)) == l1;
      ReplaceSelectedLessonTwice(s, l1, l1);
    }
  }

  /** Attaching an id the lesson did not have and then removing its chip restores the state. */
  lemma AttachThenDetachId(s: EditorState, which: IdList, id: string)
    requires SelectedLesson(s.plan, s.selected).Some?
    requires id !in IdsOf(SelectedLesson(s.plan, s.selected).value, which)
    ensures DetachId(AttachId(s, which, id), which, id) == s
  {
    var l := SelectedLesson(s.plan, s.selected).value;
    var l1 := WithIds(l, which, AddId(IdsOf(l, which), id));
    AddThenRemoveId(IdsOf(l, which), id);
    assert WithIds(l1, which, RemoveId(IdsOf(l1, which), id)) == l;
    ReplaceSelectedLessonTwice(s, l1, l);
    ReplaceSelectedLessonSame(s);
  }

  // ---------- The editor ----------

  /** The module-level `plan` and `selected` of the teacher page, with its handlers. */
  class Editor {
    var plan: Plan
    var selected: Selection

    function State(): EditorState
      reads this
    {
      EditorState(plan, selected)
    }

    ghost predicate Valid()
      reads this
    {
      SelectionValid(State())
    }

    /** The first `loadPlanAndRender`: the selection is reset and the fetched plan installed. */
    constructor (loaded: Plan)
      ensures Valid()
      ensures plan == loaded && selected == ResetSelected
    {
      plan := loaded;
      selected := ResetSelected;
    }

    /** A later `loadPlanAndRender` for another class. */
    method LoadPlan(loaded: Plan)
      modifies this
      ensures Valid()
      ensures plan == loaded && selected == ResetSelected
    {
      ResetSelection();
      plan := loaded;
    }

    /** `resetSelection()` */
    method ResetSelection()
      modifies this
      ensures plan == old(plan) && selected == ResetSelected
      ensures Valid()
    {
      selected := selected.(termIndex := Some(0));
      selected := selected.(weekIndex := Some(0));
      selected := selected.(lessonIndex := None);
    }

    /** Clicking "Select" on a term of the tree. */
    method SelectTerm(t: nat)
      requires t < |plan.terms|
      modifies this
      ensures plan == old(plan) && selected == Selection(Some(t), None, None)
      ensures Valid()
    {
      selected := Selection(Some(t), None, None);
    }

    /** Clicking "Select" on a week of the tree. */
    method SelectWeek(t: nat, w: nat)
      requires HasWeek(plan, t, w)
      modifies this
      ensures plan == old(plan) && selected == Selection(Some(t), Some(w), None)
      ensures Valid()
    {
      selected := Selection(Some(t), Some(w), None);
    }

    /** Clicking "Select" on a lesson of the tree. */
    method SelectLesson(t: nat, w: nat, l: nat)
      requires HasWeek(plan, t, w) && l < |plan.terms[t].weeks[w].lessons|
      modifies this
      ensures plan == old(plan) && selected == Selection(Some(t), Some(w), Some(l))
      ensures Valid()
      ensures SelectedLesson(plan, selected) == Some(plan.terms[t].weeks[w].lessons[l])
    {
      selected := Selection(Some(t), Some(w), Some(l));
    }

    /** `addWeekToSelectedTerm()` */
    method AddWeekToSelectedTerm()
      requires Valid()
      modifies this
      ensures Valid()
      ensures State() == AddWeekStep(old(State()))
    {
      var tIdx := selected.termIndex.GetOr(0);
      if tIdx >= |plan.terms| {
        return;
      }
      var term := plan.terms[tIdx];
      var next := |term.weeks| + 1;
      term := term.(weeks := term.weeks + [NewWeek(term, tIdx, next)]);
      plan := plan.(terms := plan.terms[tIdx := term]);
      selected := selected.(weekIndex := Some(|term.weeks| - 1));
      selected := selected.(lessonIndex := None);
    }

    /** `addLessonToSelectedWeek()` */
    method AddLessonToSelectedWeek()
      requires Valid()
      modifies this
      ensures Valid()
      ensures State() == AddLessonStep(old(State()))
    {
      var tIdx, wIdx := selected.termIndex.GetOr(0), selected.weekIndex.GetOr(0);
      if tIdx >= |plan.terms| {
        return;
      }
      if wIdx >= |plan.terms[tIdx].weeks| {
        return;
      }
      var lessons := plan.terms[tIdx].weeks[wIdx].lessons;
      var next := |lessons| + 1;
      lessons := lessons + [NewLesson(next)];
      plan := WithLessons(plan, tIdx, wIdx, lessons);
      selected := selected.(lessonIndex := Some(|lessons| - 1));
    }

    /** `moveLesson(delta)`, with the element swap through a temporary. */
    method MoveLesson(delta: int)
      requires Valid()
      modifies this
      ensures Valid()
      ensures State() == MoveLessonStep(old(State()), delta)
    {
      if selected.lessonIndex.None? {
        return;
      }
      var lIdx := selected.lessonIndex.value;
      var week := SelectedWeek(plan, selected);
      if week.None? {
        return;
      }
      var arr := week.value.lessons;
      var newIdx := lIdx + delta;
      if newIdx < 0 || newIdx >= |arr| {
        return;
      }
      var tmp := arr[lIdx];
      arr := arr[lIdx := arr[newIdx]];
      arr := arr[newIdx := tmp];
      plan := WithLessons(plan, TermIndex(selected), WeekIndex(selected), arr);
      selected := selected.(lessonIndex := Some(newIdx));
    }

    /** `deleteLesson()`, with `splice(lIdx, 1)` as `Seqs.RemoveAt`. */
    method DeleteLesson()
      requires Valid()
      modifies this
      ensures Valid()
      ensures State() == DeleteLessonStep(old(State()))
    {
      var week := SelectedWeek(plan, selected);
      if week.None? {
        return;
      }
      if selected.lessonIndex.None? {
        return;
      }
      var lIdx := selected.lessonIndex.value;
      var lessons := week.value.lessons;
      lessons := RemoveAt(lessons, lIdx);
      plan := WithLessons(plan, TermIndex(selected), WeekIndex(selected), lessons);
      selected := selected.(lessonIndex := None);
    }

    /** The "Add" button of a syllabus or textbook search result. */
    method AddIdToLesson(which: IdList, id: string)
      requires Valid()
      modifies this
      ensures Valid()
      ensures State() == AttachId(old(State()), which, id)
    {
      var lesson := SelectedLesson(plan, selected);
      if lesson.None? {
        return;
      }
      var ids := IdsOf(lesson.value, which);
      if id !in ids {
        ids := ids + [id];
      }
      var t, w, l := TermIndex(selected), WeekIndex(selected), selected.lessonIndex.value;
      var lessons := plan.terms[t].weeks[w].lessons;
      plan := WithLessons(plan, t, w, lessons[l := WithIds(lesson.value, which, ids)]);
    }

    /** The "×" button of a syllabus or textbook chip. */
    method RemoveIdFromLesson(which: IdList, id: string)
      requires Valid()
      modifies this
      ensures Valid()
      ensures State() == DetachId(old(State()), which, id)
    {
      var lesson := SelectedLesson(plan, selected);
      if lesson.None? {
        return;
      }
      var ids := RemoveId(IdsOf(lesson.value, which), id);
      var t, w, l := TermIndex(selected), WeekIndex(selected), selected.lessonIndex.value;
      var lessons := plan.terms[t].weeks[w].lessons;
      plan := WithLessons(plan, t, w, lessons[l := WithIds(lesson.value, which, ids)]);
    }
  }
}
