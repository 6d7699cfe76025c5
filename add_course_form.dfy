/** The course form of a term card: a course option from the search endpoint
    and a grade option from a fixed list; the add button turns the two
    selections into a course entry and clears them. */
module AddCourseForm {
  import opened Text
  import opened Academic

  /** An option of a select box. */
  datatype SelectOption = SelectOption(value: string, labelText: string)

  const LabelSeparator := ": "

  /** The grades the form offers. */
  const GradeCodes: seq<string> := ["A", "A-", "B+", "B", "B-", "C+", "C", "C-", "D+", "D", "F", "S", "N", "W"]

  /** `gradeOptions`: each grade code is both value and label. */
  function GradeOptions(): (r: seq<SelectOption>)
    ensures |r| == |GradeCodes| == 14
    ensures forall i :: 0 <= i < |r| ==> r[i].value == GradeCodes[i] && r[i].labelText == GradeCodes[i]
  {
    seq(|GradeCodes|, i requires 0 <= i < |GradeCodes| => SelectOption(GradeCodes[i], GradeCodes[i]))
  }

  /** The course code and title read from an option label: the text before the
      first ": ", and the remaining pieces joined back with ": " (empty when
      the label holds no ": "). */
  function SplitLabel(labelText: string): (r: (string, string))
    ensures !Contains(r.0, LabelSeparator)
    ensures Contains(labelText, LabelSeparator) ==> r.0 + LabelSeparator + r.1 == labelText
    ensures !Contains(labelText, LabelSeparator) ==> r.0 == labelText && r.1 == ""
  {
    var labelParts := Split(labelText, LabelSeparator);
    var courseCode := labelParts[0];
    var courseTitle := if |labelParts| > 1 then Join(labelParts[1..], LabelSeparator) else "";
    assert !Contains(courseCode, LabelSeparator) by {
      SplitPartsFree(labelText, LabelSeparator);
    }
    assert Contains(labelText, LabelSeparator) ==> courseCode + LabelSeparator + courseTitle == labelText by {
      SplitCount(labelText, LabelSeparator);
      if |labelParts| > 1 {
        SplitFirstRest(labelText, LabelSeparator);
      }
    }
    assert !Contains(labelText, LabelSeparator) ==> courseCode == labelText && courseTitle == "" by {
      SplitCount(labelText, LabelSeparator);
      if !Contains(labelText, LabelSeparator) {
        SplitNoSep(labelText, LabelSeparator);
      }
    }
    (courseCode, courseTitle)
  }

  // ---------------------------------------------------------------------------
  // Options built by the course search endpoint

  /** The option for a catalogue course: value "DEPT NUM", label
      "DEPT NUM: description". */
  function SearchOption(deptAbbr: string, courseNum: string, classDesc: string): SelectOption
  {
    SelectOption(deptAbbr + " " + courseNum, deptAbbr + " " + courseNum + LabelSeparator + classDesc)
  }

  /** When the option value holds no ": ", the form reads the value back as the
      course code and the description as the title. */
  lemma SearchOptionRoundTrip(deptAbbr: string, courseNum: string, classDesc: string)
    requires !Contains(deptAbbr + " " + courseNum, LabelSeparator)
    ensures SplitLabel(SearchOption(deptAbbr, courseNum, classDesc).labelText)
            == (SearchOption(deptAbbr, courseNum, classDesc).value, classDesc)
  {
    var o := SearchOption(deptAbbr, courseNum, classDesc);
    FirstPieceBeforeSeparator(o.value, classDesc);
    var r := SplitLabel(o.labelText);
    assert OccursAt(o.labelText, LabelSeparator, |o.value|);
    assert r.0 == o.value;
    assert o.value + LabelSeparator + r.1 == o.value + LabelSeparator + classDesc;
    assert r.1 == (o.value + LabelSeparator + r.1)[|o.value| + 2..];
    assert classDesc == (o.value + LabelSeparator + classDesc)[|o.value| + 2..];
  }

  /** A string without ": " followed by ": " is the first piece of the split. */
  lemma FirstPieceBeforeSeparator(a: string, b: string)
    requires !Contains(a, LabelSeparator)
    ensures Split(a + LabelSeparator + b, LabelSeparator)[0] == a
  {
    var s := a + LabelSeparator + b;
    assert OccursAt(s, LabelSeparator, |a|) by {
      assert s[|a|..|a| + 2] == LabelSeparator;
    }
    forall j | 0 <= j < |a| ensures !OccursAt(s, LabelSeparator, j) {
      if j + 2 <= |a| {
        assert s[j..j + 2] == a[j..j + 2];
        assert !OccursAt(a, LabelSeparator, j);
      } else {
        assert s[j + 1] == ':';
        assert LabelSeparator[1] == ' ';
      }
    }
    assert IndexFrom(s, LabelSeparator, 0) == Some(|a|);
    assert s[..|a|] == a;
  }

  // ---------------------------------------------------------------------------
  // The form state

  /** The entry `handleAddClick` emits; it carries no credit field. */
  function NewCourse(course: SelectOption, grade: SelectOption): (c: Course)
    ensures c.credit.None? && c.grade == grade.value
    ensures !Contains(c.course, LabelSeparator)
    ensures Contains(course.labelText, LabelSeparator) ==> c.course + LabelSeparator + c.title == course.labelText
    ensures !Contains(course.labelText, LabelSeparator) ==> c.course == course.labelText && c.title == ""
  {
    var (courseCode, courseTitle) := SplitLabel(course.labelText);
    Course(courseCode, None, grade.value, courseTitle)
  }

  class CourseForm {
    var selectedCourse: Option<SelectOption>
    var selectedGrade: Option<SelectOption>

    /** The grade box only offers the listed grades. */
    predicate Valid()
      reads this
    {
      selectedGrade.Some? ==> selectedGrade.value in GradeOptions()
    }

    constructor ()
      ensures Valid() && selectedCourse.None? && selectedGrade.None?
    {
      selectedCourse := None;
      selectedGrade := None;
    }

    method SelectCourse(option: Option<SelectOption>)
      requires Valid()
      modifies this
      ensures Valid() && selectedCourse == option && selectedGrade == old(selectedGrade)
    {
      selectedCourse := option;
    }

    method SelectGrade(option: Option<SelectOption>)
      requires option.Some? ==> option.value in GradeOptions()
      modifies this
      ensures Valid() && selectedGrade == option && selectedCourse == old(selectedCourse)
    {
      selectedGrade := option;
    }

    /** `handleAddClick`: with both selections made, the entry is emitted and
        both selections are cleared; otherwise the alert is shown and nothing
        changes. */
    method HandleAddClick() returns (added: Option<Course>, alerted: bool)
      requires Valid()
      modifies this
      ensures Valid()
      ensures old(selectedCourse).Some? && old(selectedGrade).Some? ==>
                && added == Some(NewCourse(old(selectedCourse).value, old(selectedGrade).value))
                && added.value.grade in GradeCodes
                && !alerted && selectedCourse.None? && selectedGrade.None?
      ensures !(old(selectedCourse).Some? && old(selectedGrade).Some?) ==>
                added.None? && alerted
                && selectedCourse == old(selectedCourse) && selectedGrade == old(selectedGrade)
    {
      if selectedCourse.Some? && selectedGrade.Some? {
        var c := NewCourse(selectedCourse.value, selectedGrade.value);
        GradeOptionValues(selectedGrade.value);
        added, alerted := Some(c), false;
        selectedCourse := None;
        selectedGrade := None;
      } else {
        added, alerted := None, true;
      }
    }
  }

  /** The value of an offered grade option is one of the listed codes. */
  lemma GradeOptionValues(o: SelectOption)
    requires o in GradeOptions()
    ensures o.value in GradeCodes
  {
    var i :| 0 <= i < |GradeOptions()| && GradeOptions()[i] == o;
    assert o.value == GradeCodes[i];
  }
}
