/** The coverage audit: which syllabus ids the plan schedules, which objectives are left
    unscheduled (optionally narrowed by the search box), the three counters, and the
    order-preserving grouping of the unscheduled objectives by topic. */
module Coverage {
  import opened PlanModel
  import opened Strings
  import opened Seqs

  // ---------- Scheduled ids ----------

  function ToSet<T>(s: seq<T>): set<T> {
    set x | x in s
  }

  /** The ids named by a run of lessons, accumulated in reading order. */
  function LessonsIds(ls: seq<Lesson>): set<string> {
    if ls == [] then {} else LessonsIds(ls[..|ls| - 1]) + ToSet(ls[|ls| - 1].syllabusIds)
  }

  function WeeksIds(ws: seq<Week>): set<string> {
    if ws == [] then {} else WeeksIds(ws[..|ws| - 1]) + LessonsIds(ws[|ws| - 1].lessons)
  }

  function TermsIds(ts: seq<Term>): set<string> {
    if ts == [] then {} else TermsIds(ts[..|ts| - 1]) + WeeksIds(ts[|ts| - 1].weeks)
  }

  /** What `collectScheduledIds` accumulates; `plan?.terms` makes a null plan contribute
      nothing. */
  function ScheduledIds(plan: Option<Plan>): set<string> {
    if plan.None? then {} else TermsIds(plan.value.terms)
  }

  /** An id is scheduled when some lesson of some week of some term lists it. */
  ghost predicate ScheduledSomewhere(p: Plan, id: string) {
    exists term, week, lesson ::
      term in p.terms && week in term.weeks && lesson in week.lessons && id in lesson.syllabusIds
  }

  lemma WholeSlice<T>(s: seq<T>)
    ensures s[..|s|] == s
  {
  }

  /** The step of the innermost loop: adding the next id to what the earlier ones gave. */
  lemma ToSetExtend<T>(acc: set<T>, s: seq<T>, i: nat)
    requires i < |s|
    ensures acc + ToSet(s[..i]) + {s[i]} == acc + ToSet(s[..i + 1])
  {
    assert s[..i + 1] == s[..i] + [s[i]];
    assert forall y :: y in s[..i + 1] <==> y in s[..i] || y == s[i];
  }

  lemma LessonsIdsExtend(acc: set<string>, ls: seq<Lesson>, l: nat)
    requires l < |ls|
    ensures acc + LessonsIds(ls[..l]) + ToSet(ls[l].syllabusIds) == acc + LessonsIds(ls[..l + 1])
  {
    assert ls[..l + 1][..l] == ls[..l];
  }

  lemma WeeksIdsExtend(acc: set<string>, ws: seq<Week>, w: nat)
    requires w < |ws|
    ensures acc + WeeksIds(ws[..w]) + LessonsIds(ws[w].lessons) == acc + WeeksIds(ws[..w + 1])
  {
    assert ws[..w + 1][..w] == ws[..w];
  }

  lemma TermsIdsExtend(ts: seq<Term>, t: nat)
    requires t < |ts|
    ensures TermsIds(ts[..t]) + WeeksIds(ts[t].weeks) == TermsIds(ts[..t + 1])
  {
    assert ts[..t + 1][..t] == ts[..t];
  }

  /** `collectScheduledIds(plan)`: four nested loops adding each lesson's syllabus ids to a
      set. */
  method CollectScheduledIds(plan: Option<Plan>) returns (ids: set<string>)
    ensures ids == ScheduledIds(plan)
  {
    ids := {};
    var terms := if plan.Some? then plan.value.terms else [];
    for t := 0 to |terms|
      invariant ids == TermsIds(terms[..t])
    {
      var weeks := terms[t].weeks;
      ghost var beforeTerm := ids;
      for w := 0 to |weeks|
        invariant ids == beforeTerm + WeeksIds(weeks[..w])
      {
        var lessons := weeks[w].lessons;
        ghost var beforeWeek := ids;
        for l := 0 to |lessons|
          invariant ids == beforeWeek + LessonsIds(lessons[..l])
        {
          var syllabusIds := lessons[l].syllabusIds;
          ghost var beforeLesson := ids;
          for i := 0 to |syllabusIds|
            invariant ids == beforeLesson + ToSet(syllabusIds[..i])
          {
            ToSetExtend(beforeLesson, syllabusIds, i);
            ids := ids + {syllabusIds[i]};
          }
          WholeSlice(syllabusIds);
          LessonsIdsExtend(beforeWeek, lessons, l);
        }
        WholeSlice(lessons);
        WeeksIdsExtend(beforeTerm, weeks, w);
      }
      WholeSlice(weeks);
      TermsIdsExtend(terms, t);
    }
    WholeSlice(terms);
  }

  lemma {:induction false} LessonsIdsMeaning(ls: seq<Lesson>, id: string)
    ensures id in LessonsIds(ls) <==> exists lesson :: lesson in ls && id in lesson.syllabusIds
  {
    if ls != [] {
      var init := ls[..|ls| - 1];
      LessonsIdsMeaning(init, id);
      assert ls == init + [ls[|ls| - 1]];
      assert forall lesson :: lesson in ls <==> lesson in init || lesson == ls[|ls| - 1];
    }
  }

  lemma {:induction false} WeeksIdsMeaning(ws: seq<Week>, id: string)
    ensures id in WeeksIds(ws) <==>
      exists week, lesson :: week in ws && lesson in week.lessons && id in lesson.syllabusIds
  {
    if ws != [] {
      var init, last := ws[..|ws| - 1], ws[|ws| - 1];
      WeeksIdsMeaning(init, id);
      LessonsIdsMeaning(last.lessons, id);
      assert ws == init + [last];
      assert forall week :: week in ws <==> week in init || week == last;
    }
  }

  lemma {:induction false} TermsIdsMeaning(ts: seq<Term>, id: string)
    ensures id in TermsIds(ts) <==>
      exists term, week, lesson ::
        term in ts && week in term.weeks && lesson in week.lessons && id in lesson.syllabusIds
  {
    if ts != [] {
      var init, last := ts[..|ts| - 1], ts[|ts| - 1];
      TermsIdsMeaning(init, id);
      WeeksIdsMeaning(last.weeks, id);
      assert ts == init + [last];
      assert forall term :: term in ts <==> term in init || term == last;
    }
  }

  /** The scheduled set is exactly the union over the tree: an id is in it if and only if some
      lesson lists it, and a null plan schedules nothing. */
  lemma ScheduledIdsIsUnion(plan: Option<Plan>, id: string)
    ensures plan.None? ==> ScheduledIds(plan) == {}
    ensures plan.Some? ==> (id in ScheduledIds(plan) <==> ScheduledSomewhere(plan.value, id))
  {
    if plan.Some? {
      TermsIdsMeaning(plan.value.terms, id);
    }
  }

  // ---------- Unscheduled objectives ----------

  function NotScheduled(scheduled: set<string>): SyllabusObjective -> bool {
    (s: SyllabusObjective) => s.id !in scheduled
  }

  function IsScheduledEntry(scheduled: set<string>): SyllabusObjective -> bool {
    (s: SyllabusObjective) => s.id in scheduled
  }

  function MatchesQuery(q: string): SyllabusObjective -> bool {
    (s: SyllabusObjective) => Matches(q, ObjectiveSearchText(s))
  }

  /** `syllabus.filter(s => !scheduledSet.has(s.id)).filter(<query test>)` */
  function Unscheduled(syllabus: seq<SyllabusObjective>, scheduled: set<string>, input: string)
    : (r: seq<SyllabusObjective>)
    ensures IsSubsequence(r, syllabus)
    ensures forall i :: 0 <= i < |r| ==> r[i].id !in scheduled && Matches(Query(input), ObjectiveSearchText(r[i]))
  {
    var q := Query(input);
    var notScheduled := Filter(syllabus, NotScheduled(scheduled));
    var r := Filter(notScheduled, MatchesQuery(q));
    UnscheduledShape(syllabus, scheduled, q);
    r
  }

  lemma UnscheduledShape(syllabus: seq<SyllabusObjective>, scheduled: set<string>, q: string)
    ensures var r := Filter(Filter(syllabus, NotScheduled(scheduled)), MatchesQuery(q));
      && IsSubsequence(r, syllabus)
      && forall i :: 0 <= i < |r| ==> r[i].id !in scheduled && Matches(q, ObjectiveSearchText(r[i]))
  {
    var notScheduled := Filter(syllabus, NotScheduled(scheduled));
    var r := Filter(notScheduled, MatchesQuery(q));
    FilterIsSubsequence(syllabus, NotScheduled(scheduled));
    FilterIsSubsequence(notScheduled, MatchesQuery(q));
    SubsequenceTransitive(r, notScheduled, syllabus);
    forall i | 0 <= i < |r| ensures r[i].id !in scheduled {
      FilterMembership(notScheduled, MatchesQuery(q), r[i]);
      FilterMembership(syllabus, NotScheduled(scheduled), r[i]);
    }
  }

  /** With an empty query the list is exactly the entries whose id is not scheduled, in their
      original order: every entry is either scheduled or listed, never both, and the two parts
      together account for the whole syllabus. */
  lemma UnscheduledWithoutQuery(syllabus: seq<SyllabusObjective>, scheduled: set<string>, input: string)
    requires Query(input) == ""
    ensures Unscheduled(syllabus, scheduled, input) == Filter(syllabus, NotScheduled(scheduled))
    ensures forall x :: x in syllabus ==> (x in Unscheduled(syllabus, scheduled, input) <==> x.id !in scheduled)
    ensures |Unscheduled(syllabus, scheduled, input)| + |Filter(syllabus, IsScheduledEntry(scheduled))| == |syllabus|
  {
    var notScheduled := Filter(syllabus, NotScheduled(scheduled));
    EmptyQueryKeepsAll(notScheduled);
    assert Unscheduled(syllabus, scheduled, input) == notScheduled;
    forall x | x in syllabus
      ensures x in notScheduled <==> x.id !in scheduled
    {
      FilterMembership(syllabus, NotScheduled(scheduled), x);
    }
    FilterPartition(syllabus, NotScheduled(scheduled), IsScheduledEntry(scheduled));
  }

  lemma EmptyQueryKeepsAll(s: seq<SyllabusObjective>)
    ensures Filter(s, MatchesQuery("")) == s
  {
    FilterKeepsAll(s, MatchesQuery(""));
  }

  /** A query only narrows the list: the result is a subsequence of the list without a query,
      and it keeps every entry of that list that matches. */
  lemma QueryOnlyRemoves(syllabus: seq<SyllabusObjective>, scheduled: set<string>, input: string)
    ensures IsSubsequence(Unscheduled(syllabus, scheduled, input), Unscheduled(syllabus, scheduled, ""))
    ensures forall x :: x in Unscheduled(syllabus, scheduled, "") && Matches(Query(input), ObjectiveSearchText(x))
                        ==> x in Unscheduled(syllabus, scheduled, input)
  {
    var notScheduled := Filter(syllabus, NotScheduled(scheduled));
    assert Query("") == "";
    FilterKeepsAll(notScheduled, MatchesQuery(Query("")));
    FilterIsSubsequence(notScheduled, MatchesQuery(Query(input)));
    forall x | x in notScheduled && Matches(Query(input), ObjectiveSearchText(x))
      ensures x in Unscheduled(syllabus, scheduled, input)
    {
      FilterMembership(notScheduled, MatchesQuery(Query(input)), x);
    }
  }

  // ---------- Counters ----------

  datatype Counts = Counts(total: nat, scheduled: nat, unscheduled: nat)

  /** The three counters of `render`: the syllabus length, the size of the scheduled set, and
      the length of the (possibly narrowed) unscheduled list. */
  function CountsOf(syllabus: seq<SyllabusObjective>, scheduled: set<string>, input: string): (c: Counts)
    ensures c.total == |syllabus| && c.scheduled == |scheduled|
    ensures c.unscheduled == |Unscheduled(syllabus, scheduled, input)|
    ensures c.unscheduled <= c.total
  {
    var r := Unscheduled(syllabus, scheduled, input);
    FilterIsSubsequence(syllabus, NotScheduled(scheduled));
    assert |r| <= |Filter(syllabus, NotScheduled(scheduled))|;
    Counts(|syllabus|, |scheduled|, |r|)
  }

  /** The scheduled counter counts distinct ids the plan names, including ids the syllabus does
      not contain, so the counters need not add up: one objective "A" with "A" and "Z"
      scheduled shows total 1, scheduled 2, unscheduled 0. */
  lemma CountsNeedNotAddUp()
    ensures var c := CountsOf([SyllabusObjective("A", "", "", "")], {"A", "Z"}, "");
      c.total == 1 && c.scheduled == 2 && c.unscheduled == 0
  {
    var syllabus := [SyllabusObjective("A", "", "", "")];
    assert |{"A", "Z"}| == 2;
    UnscheduledWithoutQuery(syllabus, {"A", "Z"}, "");
    assert Filter(syllabus, NotScheduled({"A", "Z"})) == [] by {
      assert syllabus[1..] == [];
    }
  }

  /** The ids of a list of objectives, in order. */
  function Ids(s: seq<SyllabusObjective>): (r: seq<string>)
    ensures |r| == |s|
    ensures forall i :: 0 <= i < |s| ==> r[i] == s[i].id
  {
    if s == [] then [] else [s[0].id] + Ids(s[1..])
  }

  lemma IdsTail(s: seq<SyllabusObjective>)
    requires s != [] && NoDuplicates(Ids(s))
    ensures NoDuplicates(Ids(s[1..]))
    ensures s[0].id !in ToSet(Ids(s[1..]))
    ensures ToSet(Ids(s)) == {s[0].id} + ToSet(Ids(s[1..]))
  {
    var rest := s[1..];
    assert Ids(s) == [s[0].id] + Ids(rest);
    forall i, j | 0 <= i < j < |rest| ensures Ids(rest)[i] != Ids(rest)[j] {
      assert Ids(rest)[i] == Ids(s)[i + 1] && Ids(rest)[j] == Ids(s)[j + 1];
    }
  }

  lemma IntersectStep(scheduled: set<string>, x: string, rest: set<string>)
    requires x !in rest
    ensures |scheduled * ({x} + rest)| == |scheduled * rest| + if x in scheduled then 1 else 0
  {
    if x in scheduled {
      assert scheduled * ({x} + rest) == {x} + scheduled * rest;
    } else {
      assert scheduled * ({x} + rest) == scheduled * rest;
    }
  }

  lemma {:induction false} ScheduledEntriesCount(s: seq<SyllabusObjective>, scheduled: set<string>)
    requires NoDuplicates(Ids(s))
    ensures |Filter(s, IsScheduledEntry(scheduled))| == |scheduled * ToSet(Ids(s))|
  {
    if s == [] {
      assert ToSet(Ids(s)) == {};
    } else {
      var rest := s[1..];
      IdsTail(s);
      ScheduledEntriesCount(rest, scheduled);
      IntersectStep(scheduled, s[0].id, ToSet(Ids(rest)));
    }
  }

  /** When the syllabus ids are distinct, every scheduled id is a syllabus id and there is no
      query, the counters do add up: scheduled + unscheduled == total. */
  lemma CountsAddUpWhenConsistent(syllabus: seq<SyllabusObjective>, scheduled: set<string>)
    requires NoDuplicates(Ids(syllabus))
    requires scheduled <= ToSet(Ids(syllabus))
    ensures var c := CountsOf(syllabus, scheduled, "");
      c.scheduled + c.unscheduled == c.total
  {
    assert Query("") == "";
    UnscheduledWithoutQuery(syllabus, scheduled, "");
    ScheduledEntriesCount(syllabus, scheduled);
    assert scheduled * ToSet(Ids(syllabus)) == scheduled;
  }

  /** When the syllabus ids are distinct and the plan schedules an id the syllabus lacks, the
      counters over-count without a query: scheduled + unscheduled exceeds total. */
  lemma CountsExceedWithForeignId(syllabus: seq<SyllabusObjective>, scheduled: set<string>, x: string)
    requires NoDuplicates(Ids(syllabus))
    requires x in scheduled && x !in ToSet(Ids(syllabus))
    ensures var c := CountsOf(syllabus, scheduled, "");
      c.scheduled + c.unscheduled > c.total
  {
    assert Query("") == "";
    UnscheduledWithoutQuery(syllabus, scheduled, "");
    ScheduledEntriesCount(syllabus, scheduled);
    var known := scheduled * ToSet(Ids(syllabus));
    SubsetCardinality(known, scheduled - {x});
    assert |scheduled - {x}| == |scheduled| - 1;
  }

  // ---------- Grouping ----------

  /** The distinct keys in order of first occurrence: the key order of a JavaScript `Map`
      built by inserting each element's key. */
  function KeysInOrder<T, K(==)>(s: seq<T>, key: T -> K): seq<K> {
    if s == [] then []
    else
      var ks := KeysInOrder(s[..|s| - 1], key);
      if key(s[|s| - 1]) in ks then ks else ks + [key(s[|s| - 1])]
  }

  function KeyIs<T, K(==)>(key: T -> K, k: K): T -> bool {
    (x: T) => key(x) == k
  }

  /** The group of key `k`: the elements with that key, in input order. */
  function GroupOf<T, K(==)>(s: seq<T>, key: T -> K, k: K): seq<T> {
    Filter(s, KeyIs(key, k))
  }

  /** A `Map` from keys to lists, with its insertion order. */
  datatype Grouping<K, T> = Grouping(keys: seq<K>, groups: map<K, seq<T>>)

  /** `groupBy(arr, keyFn)`: one pass, creating a list for each new key and pushing each
      element onto its key's list. */
  method GroupBy<T, K(==)>(arr: seq<T>, key: T -> K) returns (g: Grouping<K, T>)
    ensures g.keys == KeysInOrder(arr, key)
    ensures forall k :: k in g.groups <==> k in g.keys
    ensures forall k :: k in g.groups ==> g.groups[k] == GroupOf(arr, key, k)
  {
    var keys: seq<K> := [];
    var groups: map<K, seq<T>> := map[];
    for i := 0 to |arr|
      invariant keys == KeysInOrder(arr[..i], key)
      invariant forall k :: k in groups <==> k in keys
      invariant forall k :: k in groups ==> groups[k] == GroupOf(arr[..i], key, k)
      invariant forall k :: k !in groups ==> GroupOf(arr[..i], key, k) == []
    {
      var x := arr[i];
      var k := key(x);
      GroupStep(arr, key, i);
      if k !in groups {
        groups := groups[k := []];
        keys := keys + [k];
      }
      groups := groups[k := groups[k] + [x]];
      assert groups[k] == GroupOf(arr[..i + 1], key, k);
      assert forall k' :: k' in groups && k' != k ==> groups[k'] == GroupOf(arr[..i + 1], key, k');
    }
    assert arr[..|arr|] == arr;
    g := Grouping(keys, groups);
  }

  /** One more element extends its own key's group and the key order, and leaves every
      other group as it was. */
  lemma GroupStep<T, K>(arr: seq<T>, key: T -> K, i: nat)
    requires i < |arr|
    ensures var ks := KeysInOrder(arr[..i], key);
      KeysInOrder(arr[..i + 1], key) == if key(arr[i]) in ks then ks else ks + [key(arr[i])]
    ensures GroupOf(arr[..i + 1], key, key(arr[i])) == GroupOf(arr[..i], key, key(arr[i])) + [arr[i]]
    ensures forall k :: k != key(arr[i]) ==> GroupOf(arr[..i + 1], key, k) == GroupOf(arr[..i], key, k)
  {
    var x := arr[i];
    assert arr[..i + 1] == arr[..i] + [x];
    assert arr[..i + 1][..i] == arr[..i];
    assert [x][1..] == [];
    forall k ensures GroupOf(arr[..i + 1], key, k) == GroupOf(arr[..i], key, k) + GroupOf([x], key, k) {
      FilterAppend(arr[..i], [x], KeyIs(key, k));
    }
    assert GroupOf([x], key, key(x)) == [x];
    assert forall k :: k != key(x) ==> GroupOf([x], key, k) == [];
  }

  /** Each key is listed once. */
  lemma {:induction false} KeysDistinct<T, K>(s: seq<T>, key: T -> K)
    ensures NoDuplicates(KeysInOrder(s, key))
  {
    if s != [] {
      KeysDistinct(s[..|s| - 1], key);
    }
  }

  /** The keys are exactly the keys of the elements. */
  lemma {:induction false} KeysMembership<T, K>(s: seq<T>, key: T -> K, k: K)
    ensures k in KeysInOrder(s, key) <==> exists x :: x in s && key(x) == k
  {
    if s != [] {
      var init := s[..|s| - 1];
      KeysMembership(init, key, k);
      assert s == init + [s[|s| - 1]];
      assert forall x :: x in s <==> x in init || x == s[|s| - 1];
    }
  }

  /** Groups appear in order of first occurrence: the keys met in any prefix of the input form
      a prefix of the key order. */
  lemma {:induction false} KeysFirstOccurrenceOrder<T, K>(s: seq<T>, key: T -> K, p: nat)
    requires p <= |s|
    ensures KeysInOrder(s[..p], key) <= KeysInOrder(s, key)
    decreases |s|
  {
    if p < |s| {
      KeysFirstOccurrenceOrder(s[..|s| - 1], key, p);
      assert s[..|s| - 1][..p] == s[..p];
    } else {
      assert s[..p] == s;
    }
  }

  /** Every element lands in exactly one group, the one keyed by its own key; within a group
      the input order is kept. */
  lemma GroupMembership<T, K>(s: seq<T>, key: T -> K, k: K, x: T)
    ensures x in GroupOf(s, key, k) <==> x in s && key(x) == k
    ensures IsSubsequence(GroupOf(s, key, k), s)
  {
    FilterMembership(s, KeyIs(key, k), x);
    FilterIsSubsequence(s, KeyIs(key, k));
  }

  /** The total size of the groups of `ks`. */
  function SumSizes<T, K(==)>(s: seq<T>, key: T -> K, ks: seq<K>): nat {
    if ks == [] then 0 else SumSizes(s, key, ks[..|ks| - 1]) + |GroupOf(s, key, ks[|ks| - 1])|
  }

  lemma {:induction false} SumSizesStep<T, K>(s: seq<T>, key: T -> K, ks: seq<K>, x: T)
    requires NoDuplicates(ks)
    ensures SumSizes(s + [x], key, ks) == SumSizes(s, key, ks) + (if key(x) in ks then 1 else 0)
  {
    if ks != [] {
      var init, last := ks[..|ks| - 1], ks[|ks| - 1];
      assert NoDuplicates(init);
      SumSizesStep(s, key, init, x);
      FilterAppend(s, [x], KeyIs(key, last));
      assert [x][1..] == [];
      assert ks == init + [last];
      assert key(x) in ks <==> key(x) in init || key(x) == last;
      assert key(x) == last ==> key(x) !in init;
    }
  }

  /** The group sizes add up to the input length. */
  lemma {:induction false} GroupSizesSum<T, K>(s: seq<T>, key: T -> K)
    ensures SumSizes(s, key, KeysInOrder(s, key)) == |s|
  {
    if s != [] {
      var init, x := s[..|s| - 1], s[|s| - 1];
      var ks := KeysInOrder(init, key);
      GroupSizesSum(init, key);
      KeysDistinct(init, key);
      assert s == init + [x];
      SumSizesStep(init, key, ks, x);
      if key(x) !in ks {
        KeysMembership(init, key, key(x));
        FilterAppend(init, [x], KeyIs(key, key(x)));
        assert [x][1..] == [];
        assert GroupOf(init, key, key(x)) == [] by {
          if GroupOf(init, key, key(x)) != [] {
            var y := GroupOf(init, key, key(x))[0];
            FilterMembership(init, KeyIs(key, key(x)), y);
          }
        }
        assert (ks + [key(x)])[..|ks|] == ks;
      }
    }
  }

  /** `s => s.topic || "Other"` */
  function TopicKey(s: SyllabusObjective): (k: string)
    ensures k != ""
    ensures k == s.topic || (s.topic == "" && k == "Other")
  {
    if s.topic != "" then s.topic else "Other"
  }

  /** The "Other" group holds exactly the objectives with no topic and those whose topic is
      literally "Other". */
  lemma OtherGroup(s: seq<SyllabusObjective>, x: SyllabusObjective)
    ensures x in GroupOf(s, TopicKey, "Other") <==> x in s && (x.topic == "" || x.topic == "Other")
  {
    GroupMembership(s, TopicKey, "Other", x);
  }
}
