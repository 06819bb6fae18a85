# Lesson planner: a verified model of its three pages' logic

The lesson planner is a static browser application with three pages that share one document
shape: a class's plan is a sequence of terms, each term a sequence of weeks, each week a
sequence of lessons, and each lesson carries weak references (`syllabus_ids`, `textbook_ids`)
into two reference tables. This project models, in Dafny, the logic inside those pages:

- **Teacher editor** (`teacher.dfy`, module `Teacher`). The page keeps a module-level `plan`
  and a selection triple `selected = {termIndex, weekIndex, lessonIndex}` of nullable indices.
  The class `Teacher.Editor` has exactly those two fields, and its methods are the page's
  handlers: reset, select from the tree, add a week, add a lesson, move the selected lesson up
  or down, delete it, attach a syllabus or textbook id, remove one. Each method is proved to
  perform one step function on the pair (plan, selection): `AddWeekStep`, `AddLessonStep`,
  `MoveLessonStep`, `DeleteLessonStep`, `AttachId`, `DetachId`. The properties of the editor
  are proved about those functions: no-op cases, frames ("every other week and position is
  unchanged"), the move round trip, and the selection invariant the class keeps. The selection
  getters (a null term or week index read as 0), the "outlined node" tests of the tree and the
  60-row search of the reference tables are modelled beside them.
- **Student viewer** (`student.dfy`, module `Student`). `byId`; the list items each syllabus
  or textbook id of a lesson becomes (the resolved item or an explicit "Missing … id"
  placeholder); the homework and notes guards; the LaTeX-aware escaper, which collapses pairs
  of backslashes after `escapeHtml`; and `escapeAttr`, which percent-encodes quotes.
- **Coverage audit** (`coverage.dfy`, module `Coverage`). `collectScheduledIds` as a method
  with the source's four nested loops, proved equal to the union over the tree; the
  unscheduled list (entries whose id is not scheduled, then the optional query); the three
  counters; `groupBy` as a one-pass method over a key order and a map, with its partition and
  ordering lemmas, and the "Other" topic key.

Shared pieces: `escaping.dfy` (module `Escaping`) holds `escapeHtml`, which the three pages
define identically (teacher/app.js:630-637, student/app.js:290-297, coverage/app.js:143-145),
proved to produce escaped text and to be invertible; `strings.dfy` (module `Strings`) holds the
JavaScript string operations used (`trim` with the JavaScript white-space set, ASCII
`toLowerCase`, `includes`, and the decimal text of a number); `seqs.dfy` (module `Seqs`) holds
`filter`, `slice(0, n)`, `splice(i, 1)`, the element swap and the subsequence relation;
`plan.dfy` (module `PlanModel`) holds the datatypes.

Modelling conventions. A JSON collection the pages read as `x || []` is a plain sequence, empty
when absent. The string fields the data format requires (`section`, `topic`, `text`, `label`, `textbook`,
`term_id`, `week_id`) are plain strings; where a page tests one for truthiness, the empty
string is the falsy value. The two optional textbook fields `detail` and `url` are `Option`s,
because the teacher search prints a missing `detail` as the word `undefined`. JavaScript's
`null` index is `None`. A null table entry is `None` in the student viewer's tables, where
`byId` skips it.

## Model

| member | source | states |
|---|---|---|
| Escaping.ReplaceChar | student/app.js:292-296 | one `replaceAll` of a single character: the result holds only characters of the input other than the pattern, or characters of the replacement; when the replacement lacks the pattern, none is left |
| Escaping.EscapeHtml | coverage/app.js:143-145 | the five chained `replaceAll` calls leave no `<`, `>`, `"` or `'` in the output |
| Escaping.EscapeHtmlChar | student/app.js:290-297 | on one character the chain of five replacements gives that character's entity: `&` is replaced first, so no later step touches an entity |
| Escaping.EscapeHtmlIsEscapeEach | student/app.js:290-297 | the chained `replaceAll` calls equal escaping every character independently |
| Escaping.EscapeHtmlIsEscaped | student/app.js:290-297 | the output holds no `<`, `>`, `"` or `'`, and every `&` in it begins one of the five entities |
| Escaping.EscapeHtmlRoundTrip | teacher/app.js:630-637 | decoding the five entities gives back the input, so escaping loses nothing |
| Escaping.EscapeHtmlInjective | coverage/app.js:143-145 | two different texts never escape to the same output |
| Strings.Query | teacher/app.js:378 | the search text after `trim().toLowerCase()` is the box's text with white space cut from both ends, lowercased; it is empty exactly when the box holds only JavaScript white space (the `if (!q)` branch of every filter); otherwise it neither starts nor ends with white space; it holds no upper-case ASCII letter |
| Strings.Trim | student/app.js:141 | `trim()` keeps a slice of the text whose cut-off head and tail are all JavaScript white space, and which itself neither starts nor ends with white space |
| Strings.TrimEmptyIff | student/app.js:141 | `trim()` yields the empty string exactly when every character is JavaScript white space |
| Strings.NatToStringInjective | teacher/app.js:238-244 | different numbers print differently inside a template literal, which makes generated ids distinct |
| Strings.DecimalRoundTrip | teacher/app.js:263-268 | reading back the printed number of a generated id gives the number |
| PlanModel.MissingDetailMatchesUndefined | teacher/app.js:419-423 | a textbook reference without `detail` matches the query "undefined", because the template literal prints the missing field as that word |
| Teacher.SelectedTerm | teacher/app.js:358-361 | a term exists exactly when the term index (null read as 0) is within the plan's terms, and it is the term at that index |
| Teacher.SelectedWeek | teacher/app.js:362-367 | a week exists exactly when both indices (null read as 0) are in range, and it is the week on that path |
| Teacher.SelectedLesson | teacher/app.js:368-374 | null when the lesson index is null or any index on the path is out of range; otherwise the lesson on the path, null term and week indices read as 0 |
| Teacher.Outlined | teacher/app.js:214-222 | a node passes its `is…Selected` test exactly when it is the node the selection's deepest set index names, the term index is set, and a lesson index is set only under a set week index |
| Teacher.AtMostOneOutlined | teacher/app.js:214-222 | for any selection, at most one node of the rendered tree (term, week or lesson) passes its "is selected" test |
| Teacher.AddId | teacher/app.js:403-404 | an id already in the list leaves it unchanged; an absent id is appended at the end; so the id is present afterwards, no other value is added and no duplicate is created |
| Teacher.AddIdIdempotent | teacher/app.js:441 | attaching the same id twice equals attaching it once |
| Teacher.RemoveId | teacher/app.js:459 | every occurrence of the id is gone, every other value keeps its count (multiset), and the rest keep their order (subsequence) |
| Teacher.AddThenRemoveId | teacher/app.js:469 | removing an id after attaching it gives what removing it from the original list gives, and the original list itself when the id was absent |
| Teacher.Search | teacher/app.js:382-387 | the result is the first `min(60, n)` of the `n` matching rows in table order (a prefix of the matches of that length); so every row's lowercased text contains the query, an empty query gives the first 60 rows, and fewer than 60 rows means every matching row is there |
| Teacher.SearchSyllabus | teacher/app.js:377-387 | the syllabus search over `id section topic text`: the first `min(60, n)` of the `n` matching objectives in table order, all matching, the first 60 rows for an empty query, and every matching row when fewer than 60 are shown |
| Teacher.SearchTextbooks | teacher/app.js:414-424 | the textbook search over `id textbook label detail`: the first `min(60, n)` of the `n` matching references in table order, all matching, the first 60 rows for an empty query, and every matching row when fewer than 60 are shown |
| Teacher.WithLessons | teacher/app.js:334-336 | replacing one week's lessons changes nothing else: every other term, every other week and the week's own id and label stay as they were |
| Teacher.AddWeekStep | teacher/app.js:231-252 | a no-op when the term (null read as 0) is missing; otherwise one week is appended to it, every other term is unchanged, the term's id and label and the plan's class id and label are unchanged, the earlier weeks are kept, the week index moves to the new week and the lesson index is cleared; the selection invariant is kept |
| Teacher.AddWeekSelectsNewWeek | teacher/app.js:247-248 | after adding a week the selected week is the new week `(term_id or T<t+1>)-W<n+1>`, labelled `Week <n+1>` with no lessons, and no lesson is selected |
| Teacher.AddWeekKeepsIdsDistinct | teacher/app.js:238-245 | in a term whose weeks all carry the ids the editor generates, adding a week keeps that so and all week ids stay pairwise distinct |
| Teacher.AddLessonStep | teacher/app.js:254-279 | a no-op when the term or week (null read as 0) is missing; otherwise one lesson `L<n+1>` "New Lesson <n+1>" with empty lists, homework and notes is appended, nothing else in the plan changes, and it becomes the selected lesson |
| Teacher.MoveLessonStep | teacher/app.js:323-341 | a no-op when no lesson is selected or `lessonIndex + delta` is outside the week; otherwise the week's lessons are the old ones with exactly those two positions swapped (same length, every other position and week unchanged), and the selected lesson is still the moved lesson |
| Seqs.SwapPermutes | teacher/app.js:334-336 | the three-assignment swap only reorders the week: its lessons keep their multiset |
| Teacher.MoveLessonRoundTrip | teacher/app.js:334-338 | moving by `delta` and then by `-delta` restores the plan and the selection, so `moveLesson(+1)` then `moveLesson(-1)` is the identity |
| Teacher.DeleteLessonStep | teacher/app.js:343-355 | a no-op when the week is missing or no lesson is selected; otherwise exactly the lesson at the selected index is spliced out (length one less, the others in their order, nothing else changed) and the lesson index is cleared |
| Teacher.DeleteOnlyLessonThenAdd | teacher/app.js:350-351 | deleting the only lesson of a week leaves an empty lesson list, and the next added lesson is `L1` again |
| Teacher.DeleteFirstOfTwoThenAdd | teacher/app.js:343-355 | deleting the first of two lessons and adding one leaves the second lesson followed by the new lesson numbered 2 |
| Teacher.DeleteThenAddRepeatsLessonId | teacher/app.js:263-268 | lesson ids come from the week's length: in a week holding `L1`, `L2`, deleting `L1` and adding a lesson leaves two lessons with the id `L2` |
| Teacher.AttachId | teacher/app.js:398-406 | with a lesson selected, the id is attached to its list (present afterwards, no duplicate created) and nothing else changes; with none, nothing changes |
| Teacher.DetachId | teacher/app.js:457-461 | with a lesson selected, every occurrence of the id leaves its list and the rest keep their order; nothing else changes |
| Teacher.AttachIdIdempotent | teacher/app.js:439-443 | pressing "Add" twice for the same id leaves the same state as pressing it once |
| Teacher.AttachThenDetachId | teacher/app.js:467-471 | attaching an id the lesson lacked and then removing its chip restores the state |
| Teacher.Editor.constructor | teacher/app.js:124-137 | the first load installs the plan with the reset selection (first term, first week, no lesson) |
| Teacher.Editor.LoadPlan | teacher/app.js:124-137 | a later load resets the selection and replaces the plan |
| Teacher.Editor.ResetSelection | teacher/app.js:224-228 | the selection becomes (0, 0, null) and the plan is untouched |
| Teacher.Editor.SelectTerm | teacher/app.js:147-150 | clicking a term selects (t, null, null) |
| Teacher.Editor.SelectWeek | teacher/app.js:159-162 | clicking a week selects (t, w, null) |
| Teacher.Editor.SelectLesson | teacher/app.js:171-174 | clicking a lesson selects (t, w, l) and the selected lesson is that lesson |
| Teacher.Editor.AddWeekToSelectedTerm | teacher/app.js:231-252 | the fields become `AddWeekStep` of the old fields and the selection invariant holds |
| Teacher.Editor.AddLessonToSelectedWeek | teacher/app.js:254-279 | the fields become `AddLessonStep` of the old fields and the selection invariant holds |
| Teacher.Editor.MoveLesson | teacher/app.js:323-341 | the fields become `MoveLessonStep` of the old fields and the selection invariant holds |
| Teacher.Editor.DeleteLesson | teacher/app.js:343-355 | the fields become `DeleteLessonStep` of the old fields and the selection invariant holds |
| Teacher.Editor.AddIdToLesson | teacher/app.js:439-443 | the fields become `AttachId` of the old fields and the selection invariant holds |
| Teacher.Editor.RemoveIdFromLesson | teacher/app.js:467-471 | the fields become `DetachId` of the old fields and the selection invariant holds |
| Student.ById | student/app.js:255-257 | nothing exactly when no non-null entry has the id; otherwise the entry at an index whose id matches, with no matching non-null entry before it |
| Student.SyllabusItem | student/app.js:118-121 | an unresolved id becomes the "Missing syllabus id" placeholder with the escaped id; a resolved one yields the text of an objective with that id, unescaped |
| Student.SyllabusItems | student/app.js:117-122 | one item per id, same length and order as `syllabus_ids` |
| Student.MissingSyllabusInjective | student/app.js:120 | the placeholders of two different ids differ |
| Student.TextbookItem | student/app.js:128-129 | an unresolved id becomes the "Missing textbook id" placeholder with the escaped id |
| Student.TextbookItems | student/app.js:126-138 | one item per id, same length and order as `textbook_ids` |
| Student.TextbookAnchorIffUrl | student/app.js:132-136 | a resolved reference is emitted as an anchor exactly when its url is truthy |
| Student.TextbookDetailIffDetail | student/app.js:131 | a resolved reference ends with the detail's `</span>` exactly when its detail is truthy |
| Student.TextbookLabelFallsBackToId | student/app.js:128-136 | every resolved item contains the escaped label, or the escaped id when the label is empty, linked or not and with or without a detail; with neither url nor detail the item decodes back to exactly the label or id |
| Student.HomeworkBlock | student/app.js:141-143 | a block exists exactly when the homework has a non-white-space character; it is escaped text that decodes to the homework |
| Student.NotesBlock | student/app.js:146-149 | a block exists exactly when the notes have a non-white-space character; it is the notes' LaTeX-aware escape, which is escaped text and, apart from backslashes, the notes' plain `escapeHtml` |
| Student.CollapseBackslashes | student/app.js:304 | collapsing never lengthens the text |
| Student.CollapseRun | student/app.js:303-304 | on every input, a run of `n` backslashes becomes `(n + 1) / 2` backslashes (each left-to-right pair becomes one, an odd last one stays) and the text after the run is collapsed on its own; with the backslash-free prefix rule this fixes the result for every text |
| Student.CollapsePrefix | student/app.js:303-304 | a backslash-free start of the text passes through unchanged and the rest is collapsed on its own |
| Student.CollapseUndoesDoubling | student/app.js:303-304 | doubling every backslash and then collapsing gives the text back |
| Student.CollapseKeepsOthers | student/app.js:304 | collapsing only deletes backslashes: all other characters survive in order |
| Student.CollapseIdentity | student/app.js:304 | a text with no two adjacent backslashes is unchanged |
| Student.CollapseLeftToRight | student/app.js:304 | pairs are matched left to right without overlap: three backslashes become two |
| Student.LatexLineBreakCollapses | student/app.js:301-305 | the LaTeX line break `\\` leaves the LaTeX-aware escaper as a single backslash |
| Student.EscapeHtmlAllowLatex | student/app.js:301-305 | the LaTeX-aware escaper still leaves no `<`, `>`, `"` or `'` and every `&` begins an entity, and apart from backslashes its output is exactly `escapeHtml`'s |
| Student.EscapeAttr | student/app.js:307-310 | the output holds no `"` and no `'` |
| Student.EscapeAttrIsPerCharacter | student/app.js:307-310 | each quote becomes its percent code and every other character is kept, in order; a quote-free text is unchanged |
| Student.EscapeAttrMergesQuoteAndCode | student/app.js:309 | `%` is not encoded, so `"` and the text `%22` encode alike |
| Coverage.CollectScheduledIds | coverage/app.js:52-62 | the four nested loops produce exactly the accumulated union of the lessons' syllabus ids |
| Coverage.ScheduledIdsIsUnion | coverage/app.js:52-62 | an id is scheduled exactly when some lesson of some week of some term lists it; a null plan schedules nothing |
| Coverage.TermsIdsMeaning | coverage/app.js:54-58 | the union over terms, weeks and lessons contains an id exactly when some lesson on some path lists it |
| Coverage.Unscheduled | coverage/app.js:70-74 | the result is a subsequence of the syllabus, each entry unscheduled and matching the query |
| Coverage.UnscheduledWithoutQuery | coverage/app.js:70-72 | with an empty query the list is exactly the unscheduled entries in order; every entry is scheduled or listed, never both, and the two parts add up to the syllabus length |
| Coverage.QueryOnlyRemoves | coverage/app.js:71-74 | a query only narrows the list: the result is a subsequence of the unqueried list and keeps every matching entry of it |
| Coverage.CountsOf | coverage/app.js:67-68 | total is the syllabus length, scheduled the size of the scheduled set, unscheduled the length of the rendered unscheduled list, which never exceeds total |
| Coverage.CountsNeedNotAddUp | coverage/app.js:76-78 | one objective `A` with `A` and `Z` scheduled shows total 1, scheduled 2, unscheduled 0 |
| Coverage.CountsExceedWithForeignId | coverage/app.js:67-78 | with distinct syllabus ids and no query, an id scheduled but absent from the syllabus makes scheduled + unscheduled exceed total |
| Coverage.CountsAddUpWhenConsistent | coverage/app.js:67-78 | with distinct syllabus ids, scheduled ids drawn from the syllabus and no query, scheduled + unscheduled equals total |
| Coverage.GroupBy | coverage/app.js:113-121 | the loop produces the keys in first-occurrence order, a list for exactly those keys, and for each key the elements with that key in input order |
| Coverage.KeysDistinct | coverage/app.js:116-117 | each key appears once in the key order |
| Coverage.KeysMembership | coverage/app.js:113-121 | the keys are exactly the keys of the elements |
| Coverage.KeysFirstOccurrenceOrder | coverage/app.js:116-117 | the keys met in any prefix of the input form a prefix of the key order, so groups appear in order of first occurrence |
| Coverage.GroupMembership | coverage/app.js:118 | an element is in a group exactly when its key is that group's key; each group is a subsequence of the input |
| Coverage.GroupSizesSum | coverage/app.js:113-121 | the group sizes add up to the input length |
| Coverage.TopicKey | coverage/app.js:88 | the group key is never empty: the topic when it is truthy, "Other" when it is empty |
| Coverage.OtherGroup | coverage/app.js:88 | the "Other" group holds exactly the objectives with an empty topic and those whose topic is literally "Other" |

## Left out

- DOM construction and event wiring (`renderTree`, `makeTreeItem`, `renderEditor`, `renderPlan`, `makeDetails`, `renderList`, the coverage cards): user interface, not logic. The selection effects of the tree's click handlers are modelled as `Editor.SelectTerm`, `SelectWeek` and `SelectLesson`.
- Network loading (`loadJSON`, `init`, `loadAndRenderSelected`) and the overlap of two class loads: I/O and concurrency. `loadPlanAndRender` is modelled only as its effect on the two fields, the fetched plan being a parameter.
- The GitHub commit flow, `localStorage` settings, the JSON download, `getRepoRoot`, MathJax typesetting and the status line: browser services and foreign calls.
- `applyLessonEdits` (teacher/app.js:309-321), which copies the form fields into the lesson: form I/O.
- Teacher.Editor: the page starts with `plan = null` and an all-null selection until the first load; the model starts at the first load. A null plan makes every handler return early, which the model's empty-term plan reproduces.
- Teacher.MoveLessonStep: requires the editor's selection invariant (a set lesson index names an existing lesson), which every handler keeps; with a stale index past the end the page would write holes into the array, which is not modelled.
- Teacher.DeleteLessonStep: a week whose `lessons` field is absent would make `splice` throw; the model reads it as an empty list, from which nothing is removed.
- Teacher.AttachId: the "Add" and "×" buttons capture the lesson shown when they were rendered; the model applies them to the selected lesson, which is the one the editor shows.
- Required string fields left out of a document (an objective without `topic`, `section` or `text`, a reference without `label` or `textbook`): the search haystacks (teacher/app.js:385, teacher/app.js:422, coverage/app.js:73) would print such a field as `undefined` and match the query "undefined"; the model takes these fields as present, as the data format requires. Only the optional `detail` and `url` are modelled as possibly absent.
- Strings.Query: `toLowerCase` is modelled on the ASCII letters only; Unicode case mapping is not.
- Values of the wrong JSON type (a number as homework, which `String(...)` would print; a null syllabus entry in the coverage page, where `s.id` would throw) are not modelled: text fields are strings.
- The teacher page's own `escapeHtmlAllowLatex` (teacher/app.js:639-642) is `escapeHtml` unchanged and is used only for the notes preview, so it is covered by Escaping; the student page's variant is the one modelled as a separate function.
