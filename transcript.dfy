/** `parseApasText`: every transcript line the pattern of `Grammar` recognises
    becomes a course entry, filed either under its term or among the transfer
    courses, with duplicates (same course code and grade) dropped. */
module Transcript {
  import opened Text
  import opened Academic
  import opened Term
  import opened Grammar

  // ---------------------------------------------------------------------------
  // Course code cleaning: "1CSCI3081W" -> "CSCI 3081W"

  /** Length of the match of /^[A-Z]+/ (0 when there is none). */
  function LeadingUpper(c: string): (n: nat)
    ensures n <= |c| && AllUpper(c[..n]) && (n == |c| || !IsUpper(c[n]))
    decreases |c|
  {
    if c != [] && IsUpper(c[0]) then
      var n := 1 + LeadingUpper(c[1..]);
      assert c[..n] == [c[0]] + c[1..][..n - 1];
      n
    else 0
  }

  /** Length of the run of capitals that ends just before position `e`
      (`UpperRunBeforeRun` says it is that run). */
  function UpperRunBefore(c: string, e: nat): (n: nat)
    requires e <= |c|
    ensures n <= e
    decreases e
  {
    if e > 0 && IsUpper(c[e - 1]) then 1 + UpperRunBefore(c, e - 1) else 0
  }

  /** The characters counted are capitals and the one before them is not. */
  lemma {:induction false} UpperRunBeforeRun(c: string, e: nat)
    requires e <= |c|
    ensures var n := UpperRunBefore(c, e);
            (forall j :: e - n <= j < e ==> IsUpper(c[j])) && (n == e || !IsUpper(c[e - n - 1]))
    decreases e
  {
    if e > 0 && IsUpper(c[e - 1]) {
      UpperRunBeforeRun(c, e - 1);
    }
  }

  /** Length of the trailing run of capitals (`TrailingUpperRun` says it is
      that run). */
  function TrailingUpper(c: string): (n: nat)
    ensures n <= |c|
  {
    UpperRunBefore(c, |c|)
  }

  /** The trailing `[A-Z]*` takes the whole run of trailing capitals. */
  lemma TrailingUpperRun(c: string)
    ensures var n := TrailingUpper(c);
            AllUpper(c[|c| - n..]) && (n == |c| || !IsUpper(c[|c| - n - 1]))
  {
    var n := TrailingUpper(c);
    UpperRunBeforeRun(c, |c|);
    var t := c[|c| - n..];
    forall i | 0 <= i < n
      ensures IsUpper(t[i])
    {
      assert t[i] == c[|c| - n + i];
    }
  }

  /** A run of `k` capitals at the end with no such character before it is the
      trailing run. */
  lemma TrailingUpperExact(c: string, k: nat)
    requires k <= |c| && AllUpper(c[|c| - k..]) && (k == |c| || !IsUpper(c[|c| - k - 1]))
    ensures TrailingUpper(c) == k
  {
    UpperRunBeforeRun(c, |c|);
    assert forall j :: |c| - k <= j < |c| ==> IsUpper(c[j]) by {
      forall j | |c| - k <= j < |c|
        ensures IsUpper(c[j])
      {
        assert c[j] == c[|c| - k..][j - (|c| - k)];
      }
    }
  }

  /** Length of the run of digits that ends just before position `e`
      (`DigitRunBeforeRun` says it is that run). */
  function DigitRunBefore(c: string, e: nat): (n: nat)
    requires e <= |c|
    ensures n <= e
    decreases e
  {
    if e > 0 && IsDigit(c[e - 1]) then 1 + DigitRunBefore(c, e - 1) else 0
  }

  /** The characters counted are digits and the one before them is not. */
  lemma {:induction false} DigitRunBeforeRun(c: string, e: nat)
    requires e <= |c|
    ensures var n := DigitRunBefore(c, e);
            (forall j :: e - n <= j < e ==> IsDigit(c[j])) && (n == e || !IsDigit(c[e - n - 1]))
    decreases e
  {
    if e > 0 && IsDigit(c[e - 1]) {
      DigitRunBeforeRun(c, e - 1);
    }
  }

  /** Length of the trailing run of digits (`TrailingDigitsRun` says it is that
      run). */
  function TrailingDigits(c: string): (n: nat)
    ensures n <= |c|
  {
    DigitRunBefore(c, |c|)
  }

  /** The whole run of digits at the end of `c`. */
  lemma TrailingDigitsRun(c: string)
    ensures var n := TrailingDigits(c);
            AllDigits(c[|c| - n..]) && (n == |c| || !IsDigit(c[|c| - n - 1]))
  {
    var n := TrailingDigits(c);
    DigitRunBeforeRun(c, |c|);
    var t := c[|c| - n..];
    forall i | 0 <= i < n
      ensures IsDigit(t[i])
    {
      assert t[i] == c[|c| - n + i];
    }
  }

  /** A run of `k` digits at the end with no such character before it is the
      trailing run. */
  lemma TrailingDigitsExact(c: string, k: nat)
    requires k <= |c| && AllDigits(c[|c| - k..]) && (k == |c| || !IsDigit(c[|c| - k - 1]))
    ensures TrailingDigits(c) == k
  {
    DigitRunBeforeRun(c, |c|);
    assert forall j :: |c| - k <= j < |c| ==> IsDigit(c[j]) by {
      forall j | |c| - k <= j < |c|
        ensures IsDigit(c[j])
      {
        assert c[j] == c[|c| - k..][j - (|c| - k)];
      }
    }
  }

  /** The match of /\d+[A-Z]*$/: the leftmost suffix made of at least one digit
      followed by capitals only (`NumSuffixShape` gives its shape and
      `NumSuffixNone` says when there is none). */
  function NumSuffix(c: string): Option<string>
  {
    var u := TrailingUpper(c);
    var d := TrailingDigits(c[..|c| - u]);
    if d == 0 then None else Some(c[|c| - u - d..])
  }

  /** The suffix `NumSuffix` finds is at least one digit followed by capitals
      only; its capitals are the whole trailing run of capitals (a digit must
      come right before them) and its digits the whole run of digits before
      that, so no digit precedes it. */
  lemma NumSuffixShape(c: string)
    ensures NumSuffix(c).Some? ==> var r := NumSuffix(c).value;
              |r| <= |c| && r == c[|c| - |r|..]
    ensures NumSuffix(c).Some? ==> var r := NumSuffix(c).value; var d := |r| - TrailingUpper(c);
              1 <= d && AllDigits(r[..d]) && AllUpper(r[d..])
    ensures NumSuffix(c).Some? ==> var r := NumSuffix(c).value;
              |r| == |c| || !IsDigit(c[|c| - |r| - 1])
  {
    var u := TrailingUpper(c);
    var d := TrailingDigits(c[..|c| - u]);
    SuffixParts(c, u, d);
    if d > 0 {
      var r := c[|c| - u - d..];
      assert NumSuffix(c) == Some(r);
      assert |r| - u == d;
    }
  }

  /** `NumSuffix` finds nothing exactly when no digit comes right before the
      trailing capitals. */
  lemma NumSuffixNone(c: string)
    ensures NumSuffix(c).None? <==> TrailingUpper(c) == |c| || !IsDigit(c[|c| - TrailingUpper(c) - 1])
  {
    var u := TrailingUpper(c);
    var d := TrailingDigits(c[..|c| - u]);
    SuffixParts(c, u, d);
  }

  /** The last `u + d` characters, where `u` is the trailing run of capitals and
      `d` the run of digits before it: their first `d` are digits, the rest
      capitals, and no digit comes before them; `d` is zero exactly when no
      digit comes right before the capitals. */
  lemma SuffixParts(c: string, u: nat, d: nat)
    requires u == TrailingUpper(c) && d == TrailingDigits(c[..|c| - u])
    ensures d == 0 <==> u == |c| || !IsDigit(c[|c| - u - 1])
    ensures d > 0 ==>
              var r := c[|c| - u - d..];
              && |r| <= |c| && r == c[|c| - |r|..]
              && 1 <= |r| - u && AllDigits(r[..|r| - u]) && AllUpper(r[|r| - u..])
              && (|r| == |c| || !IsDigit(c[|c| - |r| - 1]))
  {
    var front := c[..|c| - u];
    TrailingUpperRun(c);
    TrailingDigitsRun(front);
    RunSlices(c, front, u, d);
  }

  /** `SuffixParts` on the runs' defining facts alone. */
  lemma RunSlices(c: string, front: string, u: nat, d: nat)
    requires u <= |c| && front == c[..|c| - u] && d <= |front|
    requires AllUpper(c[|c| - u..])
    requires AllDigits(front[|front| - d..]) && (d == |front| || !IsDigit(front[|front| - d - 1]))
    ensures d == 0 <==> u == |c| || !IsDigit(c[|c| - u - 1])
    ensures var r := c[|c| - u - d..];
            && AllDigits(r[..d]) && AllUpper(r[d..])
            && (|r| == |c| || !IsDigit(c[|c| - |r| - 1]))
  {
    var r := c[|c| - u - d..];
    assert r[..d] == front[|front| - d..];
    assert r[d..] == c[|c| - u..];
    if u < |c| {
      assert front[|front| - 1] == c[|c| - u - 1];
    }
    if |r| < |c| {
      assert front[|front| - d - 1] == c[|c| - |r| - 1];
    }
  }

  /** The course code cleaning of the parser: drop the leading "1", then put a
      space between the leading capitals and the number part; when either part
      is missing, the code without its "1" is kept. */
  function CleanCourse(course: string): (r: string)
    ensures var code := if |course| >= 1 then course[1..] else "";
            r == code
            || (LeadingUpper(code) > 0 && NumSuffix(code).Some?
                && r == code[..LeadingUpper(code)] + " " + NumSuffix(code).value)
  {
    var code := if |course| >= 1 then course[1..] else "";
    var dept := LeadingUpper(code);
    var num := NumSuffix(code);
    if dept > 0 && num.Some? then code[..dept] + " " + num.value else code
  }

  /** On every course group the pattern accepts the cleaning takes its normal
      path: "1" + letters + rest becomes letters + " " + rest. */
  lemma CleanCourseToken(c: string, l: nat, d: nat, x: nat)
    requires CourseTokenSplit(c, l, d, x)
    ensures CleanCourse(c) == c[1..1 + l] + " " + c[1 + l..]
  {
    var code := c[1..];
    assert code[..l] == c[1..1 + l];
    assert code[l..l + d] == c[1 + l..1 + l + d];
    assert code[l + d..] == c[1 + l + d..];
    assert code[l..] == c[1 + l..];
    CodeLeadingUpper(code, l, d);
    CodeNumSuffix(code, l, d, x);
  }

  /** Capitals followed by a digit: the leading capitals are exactly those. */
  lemma CodeLeadingUpper(code: string, l: nat, d: nat)
    requires 1 <= l && 1 <= d && l + d <= |code|
    requires AllUpper(code[..l]) && AllDigits(code[l..l + d])
    ensures LeadingUpper(code) == l
  {
    var n := LeadingUpper(code);
    assert IsDigit(code[l]) by {
      assert code[l] == code[l..l + d][0];
    }
    assert forall k :: 0 <= k < l ==> IsUpper(code[k]) by {
      forall k | 0 <= k < l
        ensures IsUpper(code[k])
      {
        assert code[k] == code[..l][k];
      }
    }
    assert forall k :: 0 <= k < n ==> IsUpper(code[k]) by {
      forall k | 0 <= k < n
        ensures IsUpper(code[k])
      {
        assert code[k] == code[..n][k];
      }
    }
  }

  /** Capitals, digits, then capitals: the number suffix is the digits and the
      trailing capitals. */
  lemma CodeNumSuffix(code: string, l: nat, d: nat, x: nat)
    requires 1 <= l && 1 <= d && |code| == l + d + x
    requires AllUpper(code[..l]) && AllDigits(code[l..l + d]) && AllUpper(code[l + d..])
    ensures NumSuffix(code) == Some(code[l..])
  {
    CodeTrailingUpper(code, l, d, x);
    CodeTrailingDigits(code, l, d);
    assert code[..|code| - TrailingUpper(code)] == code[..l + d];
  }

  /** The trailing capitals of such a code are those after the digits. */
  lemma CodeTrailingUpper(code: string, l: nat, d: nat, x: nat)
    requires 1 <= l && 1 <= d && |code| == l + d + x
    requires AllDigits(code[l..l + d]) && AllUpper(code[l + d..])
    ensures TrailingUpper(code) == x
  {
    assert IsDigit(code[l + d - 1]) by {
      assert code[l + d - 1] == code[l..l + d][d - 1];
    }
    assert code[|code| - x..] == code[l + d..];
    TrailingUpperExact(code, x);
  }

  /** The trailing digits of the part before those capitals are the digits. */
  lemma CodeTrailingDigits(code: string, l: nat, d: nat)
    requires 1 <= l && 1 <= d && l + d <= |code|
    requires AllUpper(code[..l]) && AllDigits(code[l..l + d])
    ensures TrailingDigits(code[..l + d]) == d
  {
    var front := code[..l + d];
    assert front[|front| - d..] == code[l..l + d];
    assert IsUpper(front[|front| - d - 1]) by {
      assert front[l - 1] == code[..l][l - 1];
    }
    TrailingDigitsExact(front, d);
  }

  /** A capitals-only word, a space and a rest: the space is the first one, so
      the word and the rest are determined. */
  lemma WordSpaceUnique(a1: string, b1: string, a2: string, b2: string)
    requires AllUpper(a1) && AllUpper(a2) && a1 + " " + b1 == a2 + " " + b2
    ensures a1 == a2 && b1 == b2
  {
    NoSpaceInWord(a1);
    NoSpaceInWord(a2);
    SplitCons(a1, " ", b1);
    SplitCons(a2, " ", b2);
    var r := a1 + " " + b1;
    assert Split(r, " ")[0] == a1;
    assert a1 == a2;
    assert b1 == r[|a1| + 1..] && b2 == (a2 + " " + b2)[|a2| + 1..];
  }

  lemma NoSpaceInWord(a: string)
    requires AllUpper(a)
    ensures !Contains(a, " ")
  {
    forall i | 0 <= i <= |a| - 1 ensures !OccursAt(a, " ", i) {
      assert a[i..i + 1][0] == a[i];
    }
  }

  lemma Reassemble(c: string, l: nat)
    requires 1 + l <= |c|
    ensures c == [c[0]] + c[1..1 + l] + c[1 + l..]
  {
  }

  /** Two course groups with the same cleaned code are the same group, so the
      parser's duplicate test on the cleaned code is the test on the raw group. */
  lemma CleanCourseInjective(c1: string, l1: nat, d1: nat, x1: nat, c2: string, l2: nat, d2: nat, x2: nat)
    requires CourseTokenSplit(c1, l1, d1, x1) && CourseTokenSplit(c2, l2, d2, x2)
    requires CleanCourse(c1) == CleanCourse(c2)
    ensures c1 == c2
  {
    var a1, b1, a2, b2 := c1[1..1 + l1], c1[1 + l1..], c2[1..1 + l2], c2[1 + l2..];
    assert a1 + " " + b1 == a2 + " " + b2 by {
      CleanCourseToken(c1, l1, d1, x1);
      CleanCourseToken(c2, l2, d2, x2);
    }
    assert a1 == a2 && b1 == b2 by {
      WordSpaceUnique(a1, b1, a2, b2);
    }
    Reassemble(c1, l1);
    Reassemble(c2, l2);
  }

  // ---------------------------------------------------------------------------
  // One match to one course entry

  /** `parseFloat` of a credit group "d.d", in tenths. */
  function CreditTenths(credit: string): (t: nat)
    requires CreditToken(credit)
    ensures t < 100 && t / 10 == DigitValue(credit[0]) && t % 10 == DigitValue(credit[2])
  {
    10 * DigitValue(credit[0]) + DigitValue(credit[2])
  }

  /** The course entry of a match. Credit groups always have the shape "d.d";
      the `None` branch is there only to keep the function total. */
  function ToCourse(m: RawMatch): Course
  {
    Course(CleanCourse(m.course),
           if CreditToken(m.credit) then Some(CreditTenths(m.credit)) else None,
           Strip(JsSpace, m.grade), Strip(JsSpace, m.title))
  }

  /** Grades starting with "T" or "N" go to the transfer courses. */
  predicate IsTransferGrade(g: string)
  {
    |g| > 0 && (g[0] == 'T' || g[0] == 'N')
  }

  predicate IsTransferMatch(m: RawMatch)
  {
    IsTransferGrade(ToCourse(m).grade)
  }

  /** The term key of a match. */
  function TermName(m: RawMatch): string
  {
    ConvertTerm(Some(m.term))
  }

  // ---------------------------------------------------------------------------
  // The loop

  datatype Parsed = Parsed(semesters: Semesters, transferCourses: seq<Course>)

  const EmptyParse := Parsed(map[], [])

  /** One iteration of the loop body: the bucket `name` is created if it is
      missing (for transfer courses too), then `c` is appended to the transfer
      courses or to that bucket unless the list already has an entry with the
      same code and grade. */
  function Insert(acc: Parsed, name: string, c: Course): Parsed
  {
    var sems := if name in acc.semesters then acc.semesters else acc.semesters[name := []];
    if IsTransferGrade(c.grade) then
      Parsed(sems, if HasPair(acc.transferCourses, c) then acc.transferCourses
                   else acc.transferCourses + [c])
    else
      Parsed(sems[name := if HasPair(sems[name], c) then sems[name] else sems[name] + [c]],
             acc.transferCourses)
  }

  function Step(acc: Parsed, m: RawMatch): Parsed
  {
    Insert(acc, TermName(m), ToCourse(m))
  }

  /** The state after the loop body has run on the matches `ms`, in order. */
  function ParseFold(ms: seq<RawMatch>): Parsed
    decreases |ms|
  {
    if ms == [] then EmptyParse else Step(ParseFold(ms[..|ms| - 1]), ms[|ms| - 1])
  }

  /** `parseApasText`. `None` stands for any value that is not a string. */
  function ParseApas(text: Option<string>): Parsed
  {
    if text.None? || Strip(JsSpace, text.value) == [] then EmptyParse
    else ParseFold(Matches(text.value))
  }

  /** The loop body: the bucket of the match's term is created when missing,
      then the entry goes to the transfer courses or to that bucket unless an
      entry with the same code and grade is already there. */
  method FileCourse(semesters0: Semesters, transferCourses0: seq<Course>, semesterName: string, c: Course)
    returns (semesters: Semesters, transferCourses: seq<Course>)
    ensures Parsed(semesters, transferCourses) == Insert(Parsed(semesters0, transferCourses0), semesterName, c)
  {
    semesters, transferCourses := semesters0, transferCourses0;
    if semesterName !in semesters {
      semesters := semesters[semesterName := []];
    }
    if IsTransferGrade(c.grade) {
      if !HasPair(transferCourses, c) {
        transferCourses := transferCourses + [c];
      }
    } else if !HasPair(semesters[semesterName], c) {
      semesters := semesters[semesterName := semesters[semesterName] + [c]];
    }
  }

  /** The parser as the source writes it: the guard against empty or non-string
      input, then the loop over `exec`. */
  method ParseApasText(text: Option<string>) returns (result: Parsed)
    ensures result == ParseApas(text)
  {
    if text.None? || Strip(JsSpace, text.value) == [] {
      return EmptyParse;
    }
    result := ScanMatches(text.value);
  }

  /** The loop over `exec`, which moves `lastIndex` to the end of each match. */
  method ScanMatches(s: string) returns (result: Parsed)
    ensures result == ParseFold(Matches(s))
  {
    var semesters: Semesters := map[];
    var transferCourses: seq<Course> := [];
    var lastIndex: int := 0;
    ghost var seen: seq<RawMatch> := [];
    while true
      invariant 0 <= lastIndex <= |s|
      invariant seen + MatchesFrom(s, lastIndex) == Matches(s)
      invariant Parsed(semesters, transferCourses) == ParseFold(seen)
      decreases |s| - lastIndex
    {
      var found := FindFrom(s, lastIndex);
      if found.None? {
        ScanDone(s, lastIndex, seen);
        break;
      }
      var m := found.value;
      ScanAdvance(s, lastIndex, seen, m);
      lastIndex := m.end;
      if m.index == lastIndex {
        lastIndex := lastIndex + 1;
      }
      var courseObject := ToCourse(m);
      var semesterName := TermName(m);
      semesters, transferCourses := FileCourse(semesters, transferCourses, semesterName, courseObject);
      seen := seen + [m];
    }
    return Parsed(semesters, transferCourses);
  }

  /** One iteration of the scan: the match found at `k` is the next one of the
      list, and the fold over the longer prefix is one more loop body. */
  lemma ScanAdvance(s: string, k: nat, seen: seq<RawMatch>, m: RawMatch)
    requires k <= |s| && FindFrom(s, k) == Some(m)
    requires seen + MatchesFrom(s, k) == Matches(s)
    ensures k <= m.index < m.end <= |s|
    ensures (seen + [m]) + MatchesFrom(s, m.end) == Matches(s)
    ensures ParseFold(seen + [m]) == Insert(ParseFold(seen), TermName(m), ToCourse(m))
  {
    MatchesFromFound(s, k, m);
    AppendRegroup(seen, m, MatchesFrom(s, m.end));
    ParseFoldSnoc(seen, m);
  }

  /** When `exec` finds nothing more, the matches seen are all of them. */
  lemma ScanDone(s: string, k: nat, seen: seq<RawMatch>)
    requires k <= |s| && FindFrom(s, k).None?
    requires seen + MatchesFrom(s, k) == Matches(s)
    ensures seen == Matches(s)
  {
    assert MatchesFrom(s, k) == [];
    assert seen + [] == seen;
  }

  lemma MatchesFromFound(s: string, k: nat, m: RawMatch)
    requires k <= |s| && FindFrom(s, k) == Some(m)
    ensures k <= m.index < m.end <= |s|
    ensures MatchesFrom(s, k) == [m] + MatchesFrom(s, m.end)
  {
  }

  lemma AppendRegroup<T>(a: seq<T>, x: T, b: seq<T>)
    ensures a + ([x] + b) == (a + [x]) + b
  {
  }

  /** The fold over a longer prefix is one more loop body. */
  lemma ParseFoldSnoc(seen: seq<RawMatch>, m: RawMatch)
    ensures ParseFold(seen + [m]) == Insert(ParseFold(seen), TermName(m), ToCourse(m))
  {
    assert (seen + [m])[..|seen + [m]| - 1] == seen;
  }
}
