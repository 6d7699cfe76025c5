/** The academic record shared by the transcript parser, the profile update
    handler and the profile page: a course entry, term buckets keyed by term
    name, and the two duplicate rules the code uses (course code alone, or
    course code and grade together). */
module Academic {
  import opened Text

  /** One course entry. `credit` is in tenths of a credit hour; entries added
      through the course form carry no credit field at all (`None`). */
  datatype Course = Course(course: string, credit: Option<nat>, grade: string, title: string)

  /** Term name (e.g. "Fall 2024") to the courses recorded for that term. */
  type Semesters = map<string, seq<Course>>

  /** The names every plain JavaScript object inherits from `Object.prototype`.
      Reading one of them from an object without that own key finds a truthy
      value: a function, or the prototype object itself for `__proto__`. */
  const InheritedNames: set<string> :=
    {"constructor", "hasOwnProperty", "isPrototypeOf", "propertyIsEnumerable",
     "toLocaleString", "toString", "valueOf", "__proto__",
     "__defineGetter__", "__defineSetter__", "__lookupGetter__", "__lookupSetter__"}

  /** `obj[name]` is truthy on an object whose own values are all arrays (and
      so truthy): `name` is an own key or an inherited one. */
  predicate Truthy<V>(obj: map<string, V>, name: string)
  {
    name in obj || name in InheritedNames
  }

  /** The duplicate key of the transcript parser: same course code and same grade. */
  predicate SamePair(a: Course, b: Course)
  {
    a.course == b.course && a.grade == b.grade
  }

  /** `list.some(c => c.course === x.course && c.grade === x.grade)` */
  predicate HasPair(list: seq<Course>, x: Course)
  {
    exists i :: 0 <= i < |list| && SamePair(list[i], x)
  }

  /** `list.some(c => c.course === code)` */
  predicate HasCode(list: seq<Course>, code: string)
  {
    exists i :: 0 <= i < |list| && list[i].course == code
  }

  /** No two entries share course code and grade. */
  predicate UniquePairs(list: seq<Course>)
  {
    forall i, j :: 0 <= i < j < |list| ==> !SamePair(list[i], list[j])
  }

  /** No two entries share a course code. */
  predicate UniqueCodes(list: seq<Course>)
  {
    forall i, j :: 0 <= i < j < |list| ==> list[i].course != list[j].course
  }

  /** Appending an entry whose key is not yet present keeps the keys unique. */
  lemma AppendNewPair(list: seq<Course>, x: Course)
    requires UniquePairs(list) && !HasPair(list, x)
    ensures UniquePairs(list + [x])
  {
    var l := list + [x];
    forall i, j | 0 <= i < j < |l| ensures !SamePair(l[i], l[j]) {
      if j == |list| {
        assert l[i] == list[i];
      }
    }
  }

  lemma AppendNewCode(list: seq<Course>, x: Course)
    requires UniqueCodes(list) && !HasCode(list, x.course)
    ensures UniqueCodes(list + [x])
  {
    var l := list + [x];
    forall i, j | 0 <= i < j < |l| ensures l[i].course != l[j].course {
      if j == |list| {
        assert l[i] == list[i];
      }
    }
  }
}
