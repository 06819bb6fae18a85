/** The documents all three pages read: the two reference tables and one class's plan,
    a sequence of terms holding weeks holding lessons. A collection the JSON may leave out
    (`weeks`, `lessons`, `syllabus_ids`, `textbook_ids`) is read everywhere as `x || []`, so
    here it is simply an empty sequence; an optional string read only for its truthiness is
    the empty string when absent. */
module PlanModel {
  import opened Strings

  datatype Option<T> = None | Some(value: T) {
    function GetOr(default: T): T {
      if Some? then value else default
    }
  }

  /** One syllabus learning outcome. */
  datatype SyllabusObjective = SyllabusObjective(id: string, section: string, topic: string, text: string)

  /** One textbook reference; `detail` and `url` may be absent from the JSON. */
  datatype TextbookReference = TextbookReference(
    id: string, textbook: string, labelText: string, detail: Option<string>, url: Option<string>)

  datatype Lesson = Lesson(
    lessonId: string, title: string,
    syllabusIds: seq<string>, textbookIds: seq<string>,
    homework: string, notesLatex: string)

  datatype Week = Week(weekId: string, labelText: string, lessons: seq<Lesson>)

  datatype Term = Term(termId: string, labelText: string, weeks: seq<Week>)

  datatype Plan = Plan(classId: string, labelText: string, terms: seq<Term>)

  /** JavaScript truthiness of an optional string: present and not empty. */
  predicate Truthy(o: Option<string>) {
    o.Some? && o.value != ""
  }

  /** `${x}` of an optional string: a missing value prints as `undefined`. */
  function TemplateText(o: Option<string>): string {
    if o.Some? then o.value else "undefined"
  }

  /** The row text the syllabus searches look in: `${id} ${section} ${topic} ${text}`. */
  function ObjectiveSearchText(x: SyllabusObjective): string {
    x.id + " " + x.section + " " + x.topic + " " + x.text
  }

  /** The row text the textbook search looks in: `${id} ${textbook} ${label} ${detail}`. */
  function TextbookSearchText(x: TextbookReference): string {
    x.id + " " + x.textbook + " " + x.labelText + " " + TemplateText(x.detail)
  }

  /** A reference without a `detail` still matches the query "undefined", because the
      template literal prints the missing field as that word. */
  lemma MissingDetailMatchesUndefined(x: TextbookReference)
    requires x.detail.None?
    ensures Matches("undefined", TextbookSearchText(x))
  {
    var t := TextbookSearchText(x);
    var k := |x.id + " " + x.textbook + " " + x.labelText + " "|;
    assert t[k..] == "undefined";
    var lt := ToLower(t);
    assert lt[k..] == "undefined";
    assert "undefined" <= lt[k..];
  }
}
