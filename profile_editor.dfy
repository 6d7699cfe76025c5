/** The profile page's editing state: term buckets, the "add semester" input
    and the transfer list, edited through the page's handlers; the tag lists
    with their input field; and the comma-separated current-courses field. */
module ProfileEditor {
  import opened Text
  import opened Academic

  // ---------------------------------------------------------------------------
  // The state updaters passed to the setters

  /** `list.filter(c => c.course !== code)` */
  function WithoutCode(list: seq<Course>, code: string): (r: seq<Course>)
    ensures forall x :: multiset(r)[x] == if x.course == code then 0 else multiset(list)[x]
    ensures !HasCode(r, code)
    decreases |list|
  {
    if list == [] then []
    else
      var init := WithoutCode(list[..|list| - 1], code);
      var c := list[|list| - 1];
      MultisetSnoc(list);
      if c.course == code then init
      else
        NoCodeAppend(init, c, code);
        init + [c]
  }

  lemma NoCodeAppend(l: seq<Course>, c: Course, code: string)
    requires !HasCode(l, code) && c.course != code
    ensures !HasCode(l + [c], code)
  {
    forall i | 0 <= i < |l + [c]| ensures (l + [c])[i].course != code {
      if i < |l| {
        assert (l + [c])[i] == l[i];
      }
    }
  }

  /** The multiset of a non-empty list is that of its front plus its last item. */
  lemma MultisetSnoc<T>(list: seq<T>)
    requires list != []
    ensures multiset(list) == multiset(list[..|list| - 1]) + multiset{list[|list| - 1]}
  {
    SnocSlices(list);
  }

  lemma SnocSlices<T>(list: seq<T>)
    requires list != []
    ensures list == list[..|list| - 1] + [list[|list| - 1]]
  {
  }

  /** `list.filter(i => i !== item)` */
  function WithoutItem(list: seq<string>, item: string): (r: seq<string>)
    ensures forall y :: multiset(r)[y] == if y == item then 0 else multiset(list)[y]
    decreases |list|
  {
    if list == [] then []
    else
      var init := WithoutItem(list[..|list| - 1], item);
      var x := list[|list| - 1];
      MultisetSnoc(list);
      if x == item then init else init + [x]
  }

  /** The updater of `handleAddCourseToSemester`: a missing bucket counts as
      empty; a course whose code the bucket already has changes nothing. */
  function WithCourse(prev: Semesters, semesterName: string, newCourse: Course): Semesters
  {
    var current := if semesterName in prev then prev[semesterName] else [];
    if HasCode(current, newCourse.course) then prev
    else prev[semesterName := current + [newCourse]]
  }

  /** The updater of `handleRemoveCourseFromSemester`. */
  function WithoutCourse(prev: Semesters, semesterName: string, code: string): Semesters
    requires semesterName in prev
  {
    prev[semesterName := WithoutCode(prev[semesterName], code)]
  }

  /** The list after `handleAddItemToList`: a non-empty item not yet present is
      appended. */
  function WithItem(list: seq<string>, item: string): seq<string>
  {
    if item != "" && item !in list then list + [item] else list
  }

  predicate NoDuplicates(list: seq<string>)
  {
    forall i, j :: 0 <= i < j < |list| ==> list[i] != list[j]
  }

  // ---------------------------------------------------------------------------
  // Properties of the updaters

  /** Adding a course touches only its own bucket; it is appended at the end
      when its code is new there (creating the bucket if needed) and nothing
      changes otherwise. */
  lemma WithCourseEffect(prev: Semesters, semesterName: string, newCourse: Course)
    ensures var r := WithCourse(prev, semesterName, newCourse);
      && (forall k :: k != semesterName ==> (k in r <==> k in prev) && (k in prev ==> r[k] == prev[k]))
      && (semesterName in prev && HasCode(prev[semesterName], newCourse.course) ==> r == prev)
      && (semesterName !in prev ==> r[semesterName] == [newCourse])
      && (semesterName in prev && !HasCode(prev[semesterName], newCourse.course) ==>
            r[semesterName] == prev[semesterName] + [newCourse])
  {
    if semesterName !in prev {
      assert !HasCode([], newCourse.course);
    }
  }

  /** Adding courses never puts two entries with one code into a bucket. */
  lemma WithCourseKeepsCodesUnique(prev: Semesters, semesterName: string, newCourse: Course)
    requires forall k :: k in prev ==> UniqueCodes(prev[k])
    ensures forall k :: k in WithCourse(prev, semesterName, newCourse) ==>
              UniqueCodes(WithCourse(prev, semesterName, newCourse)[k])
  {
    var current := if semesterName in prev then prev[semesterName] else [];
    if !HasCode(current, newCourse.course) {
      AppendNewCode(current, newCourse);
    }
  }

  /** Removing the course just added to a bucket restores the bucket. */
  lemma RemoveUndoesAdd(prev: Semesters, semesterName: string, newCourse: Course)
    requires semesterName in prev && !HasCode(prev[semesterName], newCourse.course)
    ensures WithoutCourse(WithCourse(prev, semesterName, newCourse), semesterName, newCourse.course) == prev
  {
    var current := prev[semesterName];
    WithoutCodeAbsent(current, newCourse.course);
    assert (current + [newCourse])[..|current|] == current;
  }

  lemma {:induction false} WithoutCodeAbsent(list: seq<Course>, code: string)
    requires !HasCode(list, code)
    ensures WithoutCode(list, code) == list
    decreases |list|
  {
    if list != [] {
      var init := list[..|list| - 1];
      assert !HasCode(init, code) by {
        forall i | 0 <= i < |init| ensures init[i].course != code {
          assert init[i] == list[i];
        }
      }
      WithoutCodeAbsent(init, code);
      assert list[|list| - 1].course != code;
      SnocSlices(list);
    }
  }

  /** Removing a course by code leaves every other bucket as it was. */
  lemma WithoutCourseEffect(prev: Semesters, semesterName: string, code: string)
    requires semesterName in prev
    ensures var r := WithoutCourse(prev, semesterName, code);
      && r.Keys == prev.Keys
      && (forall k :: k in prev && k != semesterName ==> r[k] == prev[k])
      && !HasCode(r[semesterName], code)
      && (forall x :: multiset(r[semesterName])[x] == if x.course == code then 0 else multiset(prev[semesterName])[x])
  {
  }

  /** An appended item is a new, non-empty one, so the list stays free of
      duplicates. */
  lemma WithItemKeepsDistinct(list: seq<string>, item: string)
    requires NoDuplicates(list)
    ensures NoDuplicates(WithItem(list, item))
    ensures item != "" ==> item in WithItem(list, item)
    ensures forall y :: y in list ==> y in WithItem(list, item)
  {
    var r := WithItem(list, item);
    if r != list {
      forall i, j | 0 <= i < j < |r| ensures r[i] != r[j] {
        if j == |list| {
          assert r[i] == list[i];
        }
      }
      assert r[|list|] == item;
    }
  }

  /** Removing the item just added to a list without it restores the list. */
  lemma WithoutItemUndoesWithItem(list: seq<string>, item: string)
    requires item != "" && item !in list
    ensures WithoutItem(WithItem(list, item), item) == list
  {
    WithoutItemAbsent(list, item);
    assert (list + [item])[..|list|] == list;
  }

  lemma {:induction false} WithoutItemAbsent(list: seq<string>, item: string)
    requires item !in list
    ensures WithoutItem(list, item) == list
    decreases |list|
  {
    if list != [] {
      WithoutItemAbsent(list[..|list| - 1], item);
      assert list == list[..|list| - 1] + [list[|list| - 1]];
    }
  }

  /** Deleting a semester just added restores the buckets. */
  lemma DeleteUndoesAdd(prev: Semesters, semesterName: string)
    requires semesterName !in prev
    ensures prev[semesterName := []] - {semesterName} == prev
  {
  }

  // ---------------------------------------------------------------------------
  // The page state and its handlers

  class SemesterEditor {
    var semesters: Semesters
    var newSemesterName: string
    var transferCourses: seq<Course>

    constructor (semesters0: Semesters, transferCourses0: seq<Course>)
      ensures semesters == semesters0 && transferCourses == transferCourses0 && newSemesterName == ""
    {
      semesters := semesters0;
      transferCourses := transferCourses0;
      newSemesterName := "";
    }

    /** The "add semester" input field's `onChange`. */
    method SetNewSemesterName(value: string)
      modifies this
      ensures newSemesterName == value
      ensures semesters == old(semesters) && transferCourses == old(transferCourses)
    {
      newSemesterName := value;
    }

    /** `handleAddSemester`: a non-empty name for which `semesters[name]` is
        falsy (neither a key nor an inherited member such as "constructor")
        gets an empty bucket and the input is cleared; otherwise nothing
        changes. */
    method AddSemester()
      modifies this
      ensures old(newSemesterName) != "" && !Truthy(old(semesters), old(newSemesterName)) ==>
                semesters == old(semesters)[old(newSemesterName) := []] && newSemesterName == ""
      ensures !(old(newSemesterName) != "" && !Truthy(old(semesters), old(newSemesterName))) ==>
                semesters == old(semesters) && newSemesterName == old(newSemesterName)
      ensures transferCourses == old(transferCourses)
    {
      if newSemesterName != "" && !Truthy(semesters, newSemesterName) {
        semesters := semesters[newSemesterName := []];
        newSemesterName := "";
      }
    }

    /** `handleDeleteSemester`: exactly that key goes. */
    method DeleteSemester(semesterName: string)
      modifies this
      ensures semesters == old(semesters) - {semesterName}
      ensures newSemesterName == old(newSemesterName) && transferCourses == old(transferCourses)
    {
      semesters := semesters - {semesterName};
    }

    /** `handleAddCourseToSemester`; `alerted` is the duplicate-course alert. */
    method AddCourseToSemester(semesterName: string, newCourse: Course) returns (alerted: bool)
      modifies this
      ensures alerted <==> semesterName in old(semesters) && HasCode(old(semesters)[semesterName], newCourse.course)
      ensures semesters == WithCourse(old(semesters), semesterName, newCourse)
      ensures newSemesterName == old(newSemesterName) && transferCourses == old(transferCourses)
    {
      var currentCoursesInSemester := if semesterName in semesters then semesters[semesterName] else [];
      if HasCode(currentCoursesInSemester, newCourse.course) {
        alerted := true;
        return;
      }
      alerted := false;
      semesters := semesters[semesterName := currentCoursesInSemester + [newCourse]];
    }

    /** `handleRemoveCourseFromSemester`: the page calls it only for a term it
        displays, and an absent term would make the filter call throw. */
    method RemoveCourseFromSemester(semesterName: string, courseNameToRemove: string)
      requires semesterName in semesters
      modifies this
      ensures semesters == WithoutCourse(old(semesters), semesterName, courseNameToRemove)
      ensures newSemesterName == old(newSemesterName) && transferCourses == old(transferCourses)
    {
      semesters := semesters[semesterName := WithoutCode(semesters[semesterName], courseNameToRemove)];
    }

    /** `handleRemoveTransferCourse`: every transfer entry with that code goes,
        whatever its grade. */
    method RemoveTransferCourse(courseNameToRemove: string)
      modifies this
      ensures transferCourses == WithoutCode(old(transferCourses), courseNameToRemove)
      ensures semesters == old(semesters) && newSemesterName == old(newSemesterName)
    {
      transferCourses := WithoutCode(transferCourses, courseNameToRemove);
    }
  }

  /** One tag list of the page (goals, interests, activities, ...) with the
      input field that feeds it. */
  class TagList {
    var items: seq<string>
    var draft: string

    constructor (items0: seq<string>)
      ensures items == items0 && draft == ""
    {
      items := items0;
      draft := "";
    }

    method SetDraft(value: string)
      modifies this
      ensures draft == value && items == old(items)
    {
      draft := value;
    }

    /** `handleAddItemToList(draft, ...)` on Enter: the draft is added when
        non-empty and new, and the field is cleared in every case. */
    method AddItem()
      modifies this
      ensures items == WithItem(old(items), old(draft))
      ensures NoDuplicates(old(items)) ==> NoDuplicates(items)
      ensures draft == ""
    {
      if NoDuplicates(items) {
        WithItemKeepsDistinct(items, draft);
      }
      if draft != "" && draft !in items {
        items := items + [draft];
      }
      draft := "";
    }

    /** `removeItemFromList`: every occurrence goes. */
    method RemoveItem(itemToRemove: string)
      modifies this
      ensures items == WithoutItem(old(items), itemToRemove)
      ensures draft == old(draft)
    {
      items := WithoutItem(items, itemToRemove);
    }
  }

  // ---------------------------------------------------------------------------
  // The current-courses field

  /** Each part trimmed, empty parts dropped. */
  function TrimmedNonEmpty(parts: seq<string>): (r: seq<string>)
    ensures forall i :: 0 <= i < |r| ==> r[i] != "" && IsStripped(JsSpace, r[i])
    decreases |parts|
  {
    if parts == [] then []
    else
      var t := Strip(JsSpace, parts[0]);
      var head := if t == "" then [] else [t];
      var rest := TrimmedNonEmpty(parts[1..]);
      assert forall i :: 0 <= i < |head| ==> head[i] != "" && IsStripped(JsSpace, head[i]);
      head + rest
  }

  const Comma := ","
  const CommaSpace := ", "

  /** `currentCoursesArray`: the comma-separated parts of the field, trimmed,
      empty ones dropped. */
  function CurrentCoursesArray(currentCourses: string): (r: seq<string>)
    ensures forall i :: 0 <= i < |r| ==> r[i] != "" && IsStripped(JsSpace, r[i]) && !Contains(r[i], Comma)
  {
    var parts := Split(currentCourses, Comma);
    var r := TrimmedNonEmpty(parts);
    assert forall i :: 0 <= i < |r| ==> !Contains(r[i], Comma) by {
      SplitPartsFree(currentCourses, Comma);
      TrimmedCommaFree(parts);
    }
    r
  }

  lemma {:induction false} TrimmedCommaFree(parts: seq<string>)
    requires forall j :: 0 <= j < |parts| ==> !Contains(parts[j], Comma)
    ensures forall i :: 0 <= i < |TrimmedNonEmpty(parts)| ==> !Contains(TrimmedNonEmpty(parts)[i], Comma)
    decreases |parts|
  {
    if parts != [] {
      TrimmedCommaFree(parts[1..]);
      StripNoNew(parts[0], Comma);
    }
  }

  /** A trimmed string is a slice, so it has no pattern the string lacks. */
  lemma StripNoNew(s: string, p: string)
    requires !Contains(s, p)
    ensures !Contains(Strip(JsSpace, s), p)
  {
    var a := StripOffset(JsSpace, s);
    NotContainsSlice(s, p, a, a + |Strip(JsSpace, s)|);
  }

  /** The parts after the first one when a list is joined with ", " and
      split on ",": each entry with the space in front. */
  function Spaced(l: seq<string>): seq<string>
  {
    seq(|l|, i requires 0 <= i < |l| => " " + l[i])
  }

  lemma SpacedCons(l: seq<string>)
    requires |l| > 0
    ensures Spaced(l) == [" " + l[0]] + Spaced(l[1..])
  {
    var a, b := Spaced(l), [" " + l[0]] + Spaced(l[1..]);
    assert |a| == |b|;
    forall i | 0 <= i < |a| ensures a[i] == b[i] {
      if i > 0 {
        assert b[i] == Spaced(l[1..])[i - 1] == " " + l[1..][i - 1];
      }
    }
  }

  predicate CommaFree(s: string)
  {
    forall i :: 0 <= i < |s| ==> s[i] != ','
  }

  lemma {:induction false} SplitJoined(pre: string, items: seq<string>)
    requires |items| > 0 && CommaFree(pre)
    requires forall i :: 0 <= i < |items| ==> CommaFree(items[i])
    ensures Split(pre + Join(items, CommaSpace), Comma) == [pre + items[0]] + Spaced(items[1..])
    decreases |items|
  {
    var first := pre + items[0];
    assert CommaFree(first) by {
      forall i | 0 <= i < |first| ensures first[i] != ',' {
        if i < |pre| {
          assert first[i] == pre[i];
        } else {
          assert first[i] == items[0][i - |pre|];
        }
      }
    }
    NoCharNotContains(first, ',');
    if |items| == 1 {
      SplitNoSep(first, Comma);
    } else {
      var rest := items[1..];
      assert pre + Join(items, CommaSpace) == pre + (items[0] + CommaSpace + Join(rest, CommaSpace));
      CommaSpaceRegroup(first, Join(rest, CommaSpace));
      assert pre + (items[0] + CommaSpace + Join(rest, CommaSpace)) == first + CommaSpace + Join(rest, CommaSpace);
      SplitCons(first, Comma, " " + Join(rest, CommaSpace));
      SplitJoined(" ", rest);
      SpacedCons(rest);
    }
  }

  lemma CommaSpaceRegroup(a: string, b: string)
    ensures a + CommaSpace + b == a + Comma + (" " + b)
  {
  }

  lemma SplitJoinedAll(items: seq<string>)
    requires |items| > 0
    requires forall i :: 0 <= i < |items| ==> CommaFree(items[i])
    ensures Split(Join(items, CommaSpace), Comma) == [items[0]] + Spaced(items[1..])
  {
    if |items| == 1 {
      SplitJoinedOne(items);
    } else {
      SplitJoinedMany(items);
    }
  }

  lemma SplitJoinedOne(items: seq<string>)
    requires |items| == 1 && CommaFree(items[0])
    ensures Split(Join(items, CommaSpace), Comma) == [items[0]] + Spaced(items[1..])
  {
    NoCharNotContains(items[0], ',');
    SplitNoSep(items[0], Comma);
  }

  lemma SplitJoinedMany(items: seq<string>)
    requires |items| > 1
    requires forall i :: 0 <= i < |items| ==> CommaFree(items[i])
    ensures Split(Join(items, CommaSpace), Comma) == [items[0]] + Spaced(items[1..])
  {
    NoCharNotContains(items[0], ',');
    var rest := items[1..];
    CommaSpaceRegroup(items[0], Join(rest, CommaSpace));
    SplitCons(items[0], Comma, " " + Join(rest, CommaSpace));
    SplitJoined(" ", rest);
    SpacedCons(rest);
  }

  /** Trimming a string that has a space in front of a trimmed, non-empty
      string gives that string. */
  lemma StripSpaceBefore(x: string)
    requires x != "" && IsStripped(JsSpace, x)
    ensures Strip(JsSpace, " " + x) == x
  {
    var s := " " + x;
    assert s[1..] == x;
    assert TrimStart(JsSpace, x) == x;
    assert TrimStart(JsSpace, s) == x;
    StripStripped(JsSpace, x);
  }

  lemma {:induction false} TrimmedSpaced(items: seq<string>)
    requires forall i :: 0 <= i < |items| ==> items[i] != "" && IsStripped(JsSpace, items[i])
    ensures TrimmedNonEmpty(Spaced(items)) == items
    decreases |items|
  {
    if items != [] {
      TrimmedSpaced(items[1..]);
      TrimmedSpacedStep(items);
    }
  }

  lemma TrimmedSpacedStep(items: seq<string>)
    requires items != [] && items[0] != "" && IsStripped(JsSpace, items[0])
    requires TrimmedNonEmpty(Spaced(items[1..])) == items[1..]
    ensures TrimmedNonEmpty(Spaced(items)) == items
  {
    SpacedCons(items);
    StripSpaceBefore(items[0]);
    TrimmedNonEmptyCons(" " + items[0], Spaced(items[1..]));
    FrontSlices(items);
  }

  lemma FrontSlices<T>(list: seq<T>)
    requires list != []
    ensures list == [list[0]] + list[1..]
  {
  }

  /** A part that is not blank after trimming contributes its trimmed text. */
  lemma TrimmedNonEmptyCons(x: string, rest: seq<string>)
    requires Strip(JsSpace, x) != ""
    ensures TrimmedNonEmpty([x] + rest) == [Strip(JsSpace, x)] + TrimmedNonEmpty(rest)
  {
    assert ([x] + rest)[1..] == rest;
  }

  /** Saving the list that a profile loads as its field value gives the list
      back: entries that are trimmed, non-empty and comma-free survive the
      join with ", " and the split on ",". */
  lemma CurrentCoursesRoundTrip(items: seq<string>)
    requires forall i :: 0 <= i < |items| ==> items[i] != "" && IsStripped(JsSpace, items[i]) && !Contains(items[i], Comma)
    ensures CurrentCoursesArray(Join(items, CommaSpace)) == items
  {
    if items == [] {
      EmptyFieldHasNoCourses();
    } else {
      forall i | 0 <= i < |items| ensures CommaFree(items[i]) {
        ContainsChar(items[i], ',');
      }
      RoundTripNonEmpty(items);
    }
  }

  /** An empty field gives no courses. */
  lemma EmptyFieldHasNoCourses()
    ensures CurrentCoursesArray("") == []
  {
    assert Split("", Comma) == [""] by {
      NoCharNotContains("", ',');
      SplitNoSep("", Comma);
    }
    assert TrimmedNonEmpty([""]) == [] by {
      StripStripped(JsSpace, "");
      assert [""][1..] == [];
    }
  }

  lemma {:induction false} RoundTripNonEmpty(items: seq<string>)
    requires |items| > 0
    requires forall i :: 0 <= i < |items| ==> items[i] != "" && IsStripped(JsSpace, items[i]) && CommaFree(items[i])
    ensures TrimmedNonEmpty(Split(Join(items, CommaSpace), Comma)) == items
  {
    var tl := items[1..];
    assert items == [items[0]] + tl;
    assert TrimmedNonEmpty(Spaced(tl)) == tl by {
      TrimmedSpaced(tl);
    }
    assert Split(Join(items, CommaSpace), Comma) == [items[0]] + Spaced(tl) by {
      SplitJoinedAll(items);
    }
    assert Strip(JsSpace, items[0]) == items[0] by {
      StripStripped(JsSpace, items[0]);
    }
    TrimmedCons(Split(Join(items, CommaSpace), Comma), items[0], Spaced(tl), tl);
  }

  lemma TrimmedCons(parts: seq<string>, x: string, rest: seq<string>, tl: seq<string>)
    requires parts == [x] + rest && x != "" && Strip(JsSpace, x) == x && TrimmedNonEmpty(rest) == tl
    ensures TrimmedNonEmpty(parts) == [x] + tl
  {
    assert parts[1..] == rest;
  }
}
