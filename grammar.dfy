/** The transcript line pattern of `parseApasText`,
      ^(?<term>[A-Z]{1,2}\s?\d{2})(?<course>1[A-Z]{2,4}\d{3,4}[A-Z]?)(?<credit>\d\.\d)
       (?<grade>T\d{1,2}|N\d{1,2}|S[N]?|AF|IP|NG|W|V|[A-Z][\+\-]|[A-Z])(?<title>.*)
    with flags `gm`, as a hand-written matcher with the semantics of a
    backtracking JavaScript engine: `^` holds at the start of the text and after
    a line terminator, quantifiers are greedy and give back one step at a time,
    alternatives are tried left to right, and `.*` stops at a line terminator.
    The search (`exec` with `lastIndex`) tries every position from `lastIndex` on. */
module Grammar {
  import opened Text

  /** One match: the five named groups, where it starts and where it ends. */
  datatype RawMatch = RawMatch(index: nat, term: string, course: string, credit: string,
                               grade: string, title: string, end: nat)

  // ---------------------------------------------------------------------------
  // The shape of each group

  /** `[A-Z]{1,2}\s?\d{2}` with `n` letters and `w` whitespace characters. */
  predicate TermTokenSplit(t: string, n: nat, w: nat)
  {
    1 <= n <= 2 && w <= 1 && |t| == n + w + 2
    && AllUpper(t[..n]) && AllSpace(JsSpace, t[n..n + w]) && AllDigits(t[n + w..])
  }

  predicate TermToken(t: string)
  {
    exists n: nat, w: nat :: n <= 2 && w <= 1 && TermTokenSplit(t, n, w)
  }

  /** `1[A-Z]{2,4}\d{3,4}[A-Z]?` with `l` letters, `d` digits and `x` suffix letters. */
  predicate CourseTokenSplit(c: string, l: nat, d: nat, x: nat)
  {
    2 <= l <= 4 && 3 <= d <= 4 && x <= 1 && |c| == 1 + l + d + x && c[0] == '1'
    && AllUpper(c[1..1 + l]) && AllDigits(c[1 + l..1 + l + d]) && AllUpper(c[1 + l + d..])
  }

  predicate CourseToken(c: string)
  {
    exists l: nat, d: nat, x: nat :: l <= 4 && d <= 4 && x <= 1 && CourseTokenSplit(c, l, d, x)
  }

  /** `\d\.\d` */
  predicate CreditToken(c: string)
  {
    |c| == 3 && IsDigit(c[0]) && c[1] == '.' && IsDigit(c[2])
  }

  /** One of the grade alternatives. */
  predicate GradeToken(g: string)
  {
    (2 <= |g| <= 3 && (g[0] == 'T' || g[0] == 'N') && AllDigits(g[1..]))
    || g == "S" || g == "SN" || g == "AF" || g == "IP" || g == "NG" || g == "W" || g == "V"
    || (|g| == 2 && IsUpper(g[0]) && (g[1] == '+' || g[1] == '-'))
    || (|g| == 1 && IsUpper(g[0]))
  }

  predicate NoLineTerminator(t: string)
  {
    forall i :: 0 <= i < |t| ==> !IsLineTerminator(t[i])
  }

  /** Where `^` holds in multiline mode. */
  predicate AtLineStart(s: string, p: nat)
  {
    p <= |s| && (p == 0 || IsLineTerminator(s[p - 1]))
  }

  /** What every reported match satisfies: it starts at a line start, covers a
      non-empty stretch of the text that is exactly its five groups in order, each
      group has the shape the pattern gives it, and it ends at a line end. */
  predicate WellFormedMatch(s: string, m: RawMatch)
  {
    m.index < m.end <= |s| && AtLineStart(s, m.index)
    && s[m.index..m.end] == m.term + m.course + m.credit + m.grade + m.title
    && TermToken(m.term) && CourseToken(m.course) && CreditToken(m.credit)
    && GradeToken(m.grade) && NoLineTerminator(m.title)
    && (m.end == |s| || IsLineTerminator(s[m.end]))
  }

  // ---------------------------------------------------------------------------
  // The matcher, one group at a time; each function returns the first success
  // of the rest of the pattern in backtracking order.

  function Or(a: Option<RawMatch>, b: Option<RawMatch>): Option<RawMatch>
  {
    if a.Some? then a else b
  }

  predicate CharAt(s: string, i: nat, c: char) { i < |s| && s[i] == c }

  predicate DigitAt(s: string, i: nat) { i < |s| && IsDigit(s[i]) }

  /** `.*`: the first line terminator at or after `t`, or the end of the text. */
  function LineEnd(s: string, t: nat): (e: nat)
    requires t <= |s|
    ensures t <= e <= |s| && (e == |s| || IsLineTerminator(s[e]))
    decreases |s| - t
  {
    if t == |s| || IsLineTerminator(s[t]) then t else LineEnd(s, t + 1)
  }

  /** What `.*` consumes holds no line terminator, so it stops at the first one. */
  lemma {:induction false} LineEndNoTerminator(s: string, t: nat)
    requires t <= |s|
    ensures NoLineTerminator(s[t..LineEnd(s, t)])
    decreases |s| - t
  {
    if t < |s| && !IsLineTerminator(s[t]) {
      LineEndNoTerminator(s, t + 1);
      var e := LineEnd(s, t);
      assert s[t..e] == [s[t]] + s[t + 1..e];
    }
  }

  /** Length of the grade group at `g`: the first alternative that matches there,
      each with its own greedy choice. After the grade only `.*` is left, which
      always matches, so the first alternative that matches is final. */
  function GradeLength(s: string, g: nat): (r: Option<nat>)
    ensures r.Some? ==> 1 <= r.value && g + r.value <= |s|
  {
    if g >= |s| then None
    else
      var c := s[g];
      if c == 'T' && DigitAt(s, g + 1) then Some(if DigitAt(s, g + 2) then 3 else 2)
      else if c == 'N' && DigitAt(s, g + 1) then Some(if DigitAt(s, g + 2) then 3 else 2)
      else if c == 'S' then Some(if CharAt(s, g + 1, 'N') then 2 else 1)
      else if c == 'A' && CharAt(s, g + 1, 'F') then Some(2)
      else if c == 'I' && CharAt(s, g + 1, 'P') then Some(2)
      else if c == 'N' && CharAt(s, g + 1, 'G') then Some(2)
      else if c == 'W' || c == 'V' then Some(1)
      else if IsUpper(c) && (CharAt(s, g + 1, '+') || CharAt(s, g + 1, '-')) then Some(2)
      else if IsUpper(c) then Some(1)
      else None
  }

  /** The grade alternative chosen spells a grade token. */
  lemma GradeLengthSound(s: string, g: nat)
    ensures GradeLength(s, g).Some? ==> GradeToken(s[g..g + GradeLength(s, g).value])
  {
    if GradeLength(s, g).Some? {
      var n := GradeLength(s, g).value;
      var x := s[g..g + n];
      assert x[0] == s[g];
      assert n >= 2 ==> x[1] == s[g + 1];
      assert n == 3 ==> x[2] == s[g + 2];
    }
  }

  /** Every grade alternative that could match at `g` makes `GradeLength` succeed. */
  lemma GradeLengthComplete(s: string, g: nat, k: nat)
    requires g + k <= |s| && GradeToken(s[g..g + k])
    ensures GradeLength(s, g).Some?
  {
    assert s[g..g + k][0] == s[g];
    if 2 <= k && s[g] == 'T' {
      assert s[g..g + k][1] == s[g + 1];
    }
  }

  /** The tail after term, course and credit: grade and title. */
  function GradeAt(s: string, p: nat, q: nat, r: nat, g: nat): Option<RawMatch>
    requires p <= q <= r <= g <= |s|
  {
    match GradeLength(s, g)
    case None => None
    case Some(n) =>
      var t := g + n;
      var e := LineEnd(s, t);
      Some(RawMatch(p, s[p..q], s[q..r], s[r..g], s[g..t], s[t..e], e))
  }

  function CreditAt(s: string, p: nat, q: nat, r: nat): Option<RawMatch>
    requires p <= q <= r <= |s|
  {
    if r + 3 <= |s| && IsDigit(s[r]) && s[r + 1] == '.' && IsDigit(s[r + 2]) then
      GradeAt(s, p, q, r, r + 3)
    else None
  }

  /** The course group with `l` letters, `d` digits and `x` suffix letters. */
  function CourseWith(s: string, p: nat, q: nat, l: nat, d: nat, x: nat): Option<RawMatch>
    requires p <= q <= |s|
  {
    var r := q + 1 + l + d + x;
    if r <= |s| && s[q] == '1' && AllUpper(s[q + 1..q + 1 + l])
       && AllDigits(s[q + 1 + l..q + 1 + l + d]) && AllUpper(s[q + 1 + l + d..r]) then
      CreditAt(s, p, q, r)
    else None
  }

  /** `\d{3,4}` greedy, then `[A-Z]?` greedy. */
  function CourseDigits(s: string, p: nat, q: nat, l: nat, d: nat): Option<RawMatch>
    requires p <= q <= |s|
  {
    Or(CourseWith(s, p, q, l, d, 1), CourseWith(s, p, q, l, d, 0))
  }

  function CourseLetters(s: string, p: nat, q: nat, l: nat): Option<RawMatch>
    requires p <= q <= |s|
  {
    Or(CourseDigits(s, p, q, l, 4), CourseDigits(s, p, q, l, 3))
  }

  /** `1[A-Z]{2,4}` greedy, then the rest of the course group. */
  function CourseAt(s: string, p: nat, q: nat): Option<RawMatch>
    requires p <= q <= |s|
  {
    Or(CourseLetters(s, p, q, 4), Or(CourseLetters(s, p, q, 3), CourseLetters(s, p, q, 2)))
  }

  /** The term group with `n` letters and `w` whitespace characters. */
  function TermWith(s: string, p: nat, n: nat, w: nat): Option<RawMatch>
    requires p <= |s|
  {
    var q := p + n + w + 2;
    if q <= |s| && AllUpper(s[p..p + n]) && AllSpace(JsSpace, s[p + n..p + n + w])
       && AllDigits(s[p + n + w..q]) then
      CourseAt(s, p, q)
    else None
  }

  /** The whole pattern tried at position `p`. Its contract is `MatchAtSound`
      and `MatchAtComplete`. */
  function MatchAt(s: string, p: nat): Option<RawMatch>
  {
    if AtLineStart(s, p) then
      Or(TermWith(s, p, 2, 1), Or(TermWith(s, p, 2, 0), Or(TermWith(s, p, 1, 1), TermWith(s, p, 1, 0))))
    else None
  }

  /** What each stage promises: a match it returns starts at `p` and is well formed. */
  predicate SoundAt(s: string, p: nat, m: Option<RawMatch>)
  {
    m.Some? ==> WellFormedMatch(s, m.value) && m.value.index == p
  }

  lemma GradeAtSound(s: string, p: nat, q: nat, r: nat, g: nat)
    requires p < q < r < g <= |s| && AtLineStart(s, p)
    requires TermToken(s[p..q]) && CourseToken(s[q..r]) && CreditToken(s[r..g])
    ensures SoundAt(s, p, GradeAt(s, p, q, r, g))
  {
    match GradeLength(s, g)
    case None =>
    case Some(n) =>
      var t := g + n;
      var e := LineEnd(s, t);
      GradeLengthSound(s, g);
      LineEndNoTerminator(s, t);
      var m := GradeAt(s, p, q, r, g).value;
      assert m == RawMatch(p, s[p..q], s[q..r], s[r..g], s[g..t], s[t..e], e);
      assert s[p..e] == m.term + m.course + m.credit + m.grade + m.title by {
        SliceSplit(s, p, q, r);
        SliceSplit(s, p, r, g);
        SliceSplit(s, p, g, t);
        SliceSplit(s, p, t, e);
      }
  }

  lemma CreditAtSound(s: string, p: nat, q: nat, r: nat)
    requires p < q < r <= |s| && AtLineStart(s, p)
    requires TermToken(s[p..q]) && CourseToken(s[q..r])
    ensures SoundAt(s, p, CreditAt(s, p, q, r))
  {
    if r + 3 <= |s| && IsDigit(s[r]) && s[r + 1] == '.' && IsDigit(s[r + 2]) {
      GradeAtSound(s, p, q, r, r + 3);
      assert CreditAt(s, p, q, r) == GradeAt(s, p, q, r, r + 3);
    }
  }

  lemma CourseWithSound(s: string, p: nat, q: nat, l: nat, d: nat, x: nat)
    requires p < q <= |s| && AtLineStart(s, p) && TermToken(s[p..q])
    requires 2 <= l <= 4 && 3 <= d <= 4 && x <= 1
    ensures SoundAt(s, p, CourseWith(s, p, q, l, d, x))
  {
    if CourseWith(s, p, q, l, d, x).Some? {
      var r := q + 1 + l + d + x;
      CourseWithSome(s, p, q, l, d, x);
      CreditAtSound(s, p, q, r);
    }
  }

  /** What a successful course group leaves to the credit group. */
  lemma CourseWithSome(s: string, p: nat, q: nat, l: nat, d: nat, x: nat)
    requires p <= q <= |s| && 2 <= l <= 4 && 3 <= d <= 4 && x <= 1
    requires CourseWith(s, p, q, l, d, x).Some?
    ensures q + 1 + l + d + x <= |s| && CourseToken(s[q..q + 1 + l + d + x])
    ensures CourseWith(s, p, q, l, d, x) == CreditAt(s, p, q, q + 1 + l + d + x)
  {
    CourseGroupShape(s, q, l, d, x);
    assert CourseTokenSplit(s[q..q + 1 + l + d + x], l, d, x);
  }

  /** The text `CourseWith` accepts is a course group. */
  lemma CourseGroupShape(s: string, q: nat, l: nat, d: nat, x: nat)
    requires 2 <= l <= 4 && 3 <= d <= 4 && x <= 1 && q + 1 + l + d + x <= |s|
    ensures CourseTokenSplit(s[q..q + 1 + l + d + x], l, d, x) <==>
              s[q] == '1' && AllUpper(s[q + 1..q + 1 + l])
              && AllDigits(s[q + 1 + l..q + 1 + l + d]) && AllUpper(s[q + 1 + l + d..q + 1 + l + d + x])
  {
    var r := q + 1 + l + d + x;
    assert s[q..r][0] == s[q];
    SliceOfSlice(s, q, r, 1, 1 + l);
    SliceOfSlice(s, q, r, 1 + l, 1 + l + d);
    SliceOfSlice(s, q, r, 1 + l + d, r - q);
  }

  lemma CourseAtSound(s: string, p: nat, q: nat)
    requires p < q <= |s| && AtLineStart(s, p) && TermToken(s[p..q])
    ensures SoundAt(s, p, CourseAt(s, p, q))
  {
    forall l: nat, d: nat, x: nat | 2 <= l <= 4 && 3 <= d <= 4 && x <= 1
      ensures SoundAt(s, p, CourseWith(s, p, q, l, d, x))
    {
      CourseWithSound(s, p, q, l, d, x);
    }
  }

  lemma TermWithSound(s: string, p: nat, n: nat, w: nat)
    requires AtLineStart(s, p) && 1 <= n <= 2 && w <= 1
    ensures SoundAt(s, p, TermWith(s, p, n, w))
  {
    var q := p + n + w + 2;
    if q <= |s| && AllUpper(s[p..p + n]) && AllSpace(JsSpace, s[p + n..p + n + w])
       && AllDigits(s[p + n + w..q]) {
      TermCourseSound(s, p, n, w);
    }
  }

  /** After a term group, the course group yields only well-formed matches. */
  lemma TermCourseSound(s: string, p: nat, n: nat, w: nat)
    requires AtLineStart(s, p) && 1 <= n <= 2 && w <= 1 && p + n + w + 2 <= |s|
    requires AllUpper(s[p..p + n]) && AllSpace(JsSpace, s[p + n..p + n + w])
    requires AllDigits(s[p + n + w..p + n + w + 2])
    ensures SoundAt(s, p, TermWith(s, p, n, w))
  {
    TermGroupShape(s, p, n, w);
    assert TermTokenSplit(s[p..p + n + w + 2], n, w);
    CourseAtSound(s, p, p + n + w + 2);
    SoundAtEither(s, p, TermWith(s, p, n, w), CourseAt(s, p, p + n + w + 2));
  }

  lemma SoundAtEither(s: string, p: nat, m: Option<RawMatch>, c: Option<RawMatch>)
    requires m.None? || m == c
    requires SoundAt(s, p, c)
    ensures SoundAt(s, p, m)
  {
  }

  /** The text `TermWith` accepts is a term group. */
  lemma TermGroupShape(s: string, p: nat, n: nat, w: nat)
    requires 1 <= n <= 2 && w <= 1 && p + n + w + 2 <= |s|
    ensures TermTokenSplit(s[p..p + n + w + 2], n, w) <==>
              AllUpper(s[p..p + n]) && AllSpace(JsSpace, s[p + n..p + n + w])
              && AllDigits(s[p + n + w..p + n + w + 2])
  {
    var q := p + n + w + 2;
    SliceOfSlice(s, p, q, 0, n);
    SliceOfSlice(s, p, q, n, n + w);
    SliceOfSlice(s, p, q, n + w, q - p);
  }

  /** A match found at `p` starts at `p` and is well formed. */
  lemma MatchAtSound(s: string, p: nat)
    ensures SoundAt(s, p, MatchAt(s, p))
  {
    if AtLineStart(s, p) {
      TermWithSound(s, p, 2, 1);
      TermWithSound(s, p, 2, 0);
      TermWithSound(s, p, 1, 1);
      TermWithSound(s, p, 1, 0);
    }
  }

  /** The part of `MatchAtSound` the search needs: a match at `p` starts there
      and ends inside the text. */
  lemma MatchAtBounds(s: string, p: nat)
    ensures MatchAt(s, p).Some? ==> MatchAt(s, p).value.index == p < MatchAt(s, p).value.end <= |s|
  {
    MatchAtSound(s, p);
  }

  lemma SliceSplit(s: string, a: nat, b: nat, c: nat)
    requires a <= b <= c <= |s|
    ensures s[a..c] == s[a..b] + s[b..c]
  {
  }

  lemma SliceOfSlice(s: string, a: nat, b: nat, i: nat, j: nat)
    requires a <= b <= |s| && i <= j <= b - a
    ensures s[a..b][i..j] == s[a + i..a + j]
  {
    forall t | 0 <= t < j - i ensures s[a..b][i..j][t] == s[a + i..a + j][t] {
      assert s[a..b][i..j][t] == s[a + i + t];
    }
  }

  lemma CreditAtComplete(s: string, p: nat, q: nat, r: nat, g: nat, k: nat)
    requires AtLineStart(s, p) && p < q < r < g && g + k <= |s|
    requires TermToken(s[p..q]) && CourseToken(s[q..r]) && CreditToken(s[r..g])
    requires GradeToken(s[g..g + k])
    ensures CreditAt(s, p, q, r).Some?
  {
    GradeLengthComplete(s, g, k);
    assert s[r..g][0] == s[r] && s[r..g][1] == s[r + 1] && s[r..g][2] == s[r + 2];
  }

  lemma CourseWithComplete(s: string, p: nat, q: nat, r: nat, l: nat, d: nat, x: nat)
    requires p < q < r <= |s| && AtLineStart(s, p) && TermToken(s[p..q])
    requires CourseTokenSplit(s[q..r], l, d, x) && CreditAt(s, p, q, r).Some?
    ensures CourseWith(s, p, q, l, d, x).Some?
  {
    CourseGroupShape(s, q, l, d, x);
  }

  lemma CourseDigitsComplete(s: string, p: nat, q: nat, l: nat, d: nat, x: nat)
    requires p <= q <= |s| && x <= 1 && CourseWith(s, p, q, l, d, x).Some?
    ensures CourseDigits(s, p, q, l, d).Some?
  {
  }

  lemma CourseLettersComplete(s: string, p: nat, q: nat, l: nat, d: nat)
    requires p <= q <= |s| && 3 <= d <= 4 && CourseDigits(s, p, q, l, d).Some?
    ensures CourseLetters(s, p, q, l).Some?
  {
  }

  lemma CourseAtSome(s: string, p: nat, q: nat, l: nat)
    requires p <= q <= |s| && 2 <= l <= 4 && CourseLetters(s, p, q, l).Some?
    ensures CourseAt(s, p, q).Some?
  {
  }

  lemma CourseAtComplete(s: string, p: nat, q: nat, r: nat, g: nat, k: nat)
    requires AtLineStart(s, p) && p < q < r < g && g + k <= |s|
    requires TermToken(s[p..q]) && CourseToken(s[q..r]) && CreditToken(s[r..g])
    requires GradeToken(s[g..g + k])
    ensures CourseAt(s, p, q).Some?
  {
    CreditAtComplete(s, p, q, r, g, k);
    var l: nat, d: nat, x: nat :| l <= 4 && d <= 4 && x <= 1 && CourseTokenSplit(s[q..r], l, d, x);
    CourseWithComplete(s, p, q, r, l, d, x);
    CourseDigitsComplete(s, p, q, l, d, x);
    CourseLettersComplete(s, p, q, l, d);
    CourseAtSome(s, p, q, l);
  }

  /** The converse of `MatchAtSound`: whenever the text at a line start can be
      cut into the five groups at all, the matcher finds a match there. */
  lemma MatchAtComplete(s: string, p: nat, q: nat, r: nat, g: nat, k: nat)
    requires AtLineStart(s, p) && p < q < r < g && g + k <= |s|
    requires TermToken(s[p..q]) && CourseToken(s[q..r]) && CreditToken(s[r..g])
    requires GradeToken(s[g..g + k])
    ensures MatchAt(s, p).Some?
  {
    CourseAtComplete(s, p, q, r, g, k);
    var n: nat, w: nat :| n <= 2 && w <= 1 && TermTokenSplit(s[p..q], n, w);
    if n == 2 && w == 1 {
      TermWithComplete(s, p, q, 2, 1);
    } else if n == 2 {
      TermWithComplete(s, p, q, 2, 0);
    } else if w == 1 {
      TermWithComplete(s, p, q, 1, 1);
    } else {
      TermWithComplete(s, p, q, 1, 0);
    }
    MatchAtSome(s, p);
  }

  lemma TermWithComplete(s: string, p: nat, q: nat, n: nat, w: nat)
    requires p < q <= |s| && TermTokenSplit(s[p..q], n, w) && CourseAt(s, p, q).Some?
    ensures TermWith(s, p, n, w).Some?
  {
    assert q == p + n + w + 2;
    TermGroupShape(s, p, n, w);
    assert TermWith(s, p, n, w) == CourseAt(s, p, q);
  }

  lemma MatchAtSome(s: string, p: nat)
    requires AtLineStart(s, p)
    requires TermWith(s, p, 2, 1).Some? || TermWith(s, p, 2, 0).Some?
          || TermWith(s, p, 1, 1).Some? || TermWith(s, p, 1, 0).Some?
    ensures MatchAt(s, p).Some?
  {
    OrSome(TermWith(s, p, 2, 1), TermWith(s, p, 2, 0), TermWith(s, p, 1, 1), TermWith(s, p, 1, 0));
  }

  /** One of the four alternatives matching makes their `Or` match. */
  lemma OrSome(a: Option<RawMatch>, b: Option<RawMatch>, c: Option<RawMatch>, d: Option<RawMatch>)
    requires a.Some? || b.Some? || c.Some? || d.Some?
    ensures Or(a, Or(b, Or(c, d))).Some?
  {
  }

  // ---------------------------------------------------------------------------
  // The global search

  /** `courseRegex.exec(text)` with `lastIndex == k`: the first position at or
      after `k` where the pattern matches (`FindFromFound` says that the match
      is the one `MatchAt` finds there). */
  function FindFrom(s: string, k: nat): (r: Option<RawMatch>)
    requires k <= |s|
    ensures r.Some? ==> k <= r.value.index < r.value.end <= |s|
    ensures r.Some? ==> forall i :: k <= i < r.value.index ==> MatchAt(s, i).None?
    ensures r.None? ==> forall i :: k <= i <= |s| ==> MatchAt(s, i).None?
    decreases |s| - k
  {
    var m := MatchAt(s, k);
    MatchAtBounds(s, k);
    if m.Some? then m
    else if k == |s| then None
    else
      var r := FindFrom(s, k + 1);
      NoMatchBefore(s, k, r);
      r
  }

  /** A position without a match extends the stretch without one that the
      search from the next position reports. */
  lemma NoMatchBefore(s: string, k: nat, r: Option<RawMatch>)
    requires k < |s| && MatchAt(s, k).None?
    requires r.Some? ==> forall i :: k + 1 <= i < r.value.index ==> MatchAt(s, i).None?
    requires r.None? ==> forall i :: k + 1 <= i <= |s| ==> MatchAt(s, i).None?
    ensures r.Some? ==> forall i :: k <= i < r.value.index ==> MatchAt(s, i).None?
    ensures r.None? ==> forall i :: k <= i <= |s| ==> MatchAt(s, i).None?
  {
  }

  /** What `exec` returns is the match at its position, so it is well formed. */
  lemma {:induction false} FindFromFound(s: string, k: nat)
    requires k <= |s|
    ensures FindFrom(s, k).Some? ==>
              MatchAt(s, FindFrom(s, k).value.index) == FindFrom(s, k)
              && WellFormedMatch(s, FindFrom(s, k).value)
    decreases |s| - k
  {
    MatchAtSound(s, k);
    if MatchAt(s, k).None? && k < |s| {
      FindFromFound(s, k + 1);
    }
  }

  /** All matches the `while (exec)` loop sees when it starts at `lastIndex == k`. */
  function MatchesFrom(s: string, k: nat): (ms: seq<RawMatch>)
    requires k <= |s|
    decreases |s| - k
  {
    match FindFrom(s, k)
    case None => []
    case Some(m) => [m] + MatchesFrom(s, m.end)
  }

  function Matches(s: string): seq<RawMatch>
  {
    MatchesFrom(s, 0)
  }

  /** The reported matches are well formed, start at or after `k`, and follow
      each other in text order without overlapping. */
  lemma {:induction false} MatchesOrdered(s: string, k: nat)
    requires k <= |s|
    ensures forall i :: 0 <= i < |MatchesFrom(s, k)| ==>
              WellFormedMatch(s, MatchesFrom(s, k)[i]) && k <= MatchesFrom(s, k)[i].index
    ensures forall i :: 0 <= i < |MatchesFrom(s, k)| - 1 ==>
              MatchesFrom(s, k)[i].end <= MatchesFrom(s, k)[i + 1].index
    decreases |s| - k
  {
    match FindFrom(s, k)
    case None =>
    case Some(m) =>
      FindFromFound(s, k);
      MatchesOrdered(s, m.end);
      assert MatchesFrom(s, k) == [m] + MatchesFrom(s, m.end);
  }

  /** Nothing is skipped: every position where the pattern matches either starts
      a reported match or lies inside one. */
  lemma {:induction false} MatchesComplete(s: string, k: nat, i: nat)
    requires k <= i <= |s| && MatchAt(s, i).Some?
    ensures exists j :: 0 <= j < |MatchesFrom(s, k)|
                        && MatchesFrom(s, k)[j].index <= i < MatchesFrom(s, k)[j].end
    decreases |s| - k
  {
    match FindFrom(s, k)
    case None =>
    case Some(m) =>
      var ms := MatchesFrom(s, k);
      assert ms == [m] + MatchesFrom(s, m.end);
      assert m.index <= i;
      if i < m.end {
        assert ms[0].index <= i < ms[0].end;
      } else {
        MatchesComplete(s, m.end, i);
        var j :| 0 <= j < |MatchesFrom(s, m.end)|
                 && MatchesFrom(s, m.end)[j].index <= i < MatchesFrom(s, m.end)[j].end;
        assert ms[j + 1] == MatchesFrom(s, m.end)[j];
      }
  }

  // ---------------------------------------------------------------------------
  // Two concrete lines

  /** The course group must start with "1". */
  lemma CourseAtNeedsOne(s: string, p: nat, q: nat)
    requires p <= q < |s| && s[q] != '1'
    ensures CourseAt(s, p, q).None?
  {
  }

  const ExampleLine := "F241CSCI30813.0BExcellent Course"

  /** A line in the layout the parser expects matches. */
  lemma ExampleLineMatches()
    ensures MatchAt(ExampleLine, 0).Some?
  {
    ExampleTerm();
    ExampleCourse();
    ExampleCreditGrade();
    MatchAtComplete(ExampleLine, 0, 3, 12, 15, 1);
  }

  lemma ExampleTerm()
    ensures TermToken(ExampleLine[0..3])
  {
    var s := ExampleLine;
    assert s[0] == 'F' && s[1] == '2' && s[2] == '4';
    var t := s[0..3];
    assert t[0] == s[0] && t[1] == s[1] && t[2] == s[2];
    assert t[..1][0] == t[0] && t[1..][0] == t[1] && t[1..][1] == t[2];
    assert TermTokenSplit(t, 1, 0);
  }

  lemma ExampleCourse()
    ensures CourseToken(ExampleLine[3..12])
  {
    var s := ExampleLine;
    assert s[3] == '1' && s[4] == 'C' && s[5] == 'S' && s[6] == 'C' && s[7] == 'I';
    assert s[8] == '3' && s[9] == '0' && s[10] == '8' && s[11] == '1';
    var c := s[3..12];
    assert c[0] == s[3] && c[1] == s[4] && c[2] == s[5] && c[3] == s[6] && c[4] == s[7];
    assert c[5] == s[8] && c[6] == s[9] && c[7] == s[10] && c[8] == s[11];
    assert c[1..5][0] == c[1] && c[1..5][1] == c[2] && c[1..5][2] == c[3] && c[1..5][3] == c[4];
    assert c[5..9][0] == c[5] && c[5..9][1] == c[6] && c[5..9][2] == c[7] && c[5..9][3] == c[8];
    assert CourseTokenSplit(c, 4, 4, 0);
  }

  lemma ExampleCreditGrade()
    ensures CreditToken(ExampleLine[12..15]) && GradeToken(ExampleLine[15..16])
  {
    var s := ExampleLine;
    assert s[12] == '3' && s[13] == '.' && s[14] == '0' && s[15] == 'B';
    assert s[12..15][0] == s[12] && s[12..15][1] == s[13] && s[12..15][2] == s[14];
    assert s[15..16][0] == s[15];
  }

  const SpacedLine := "F24 1CSCI30813.0BExcellent Course"

  /** A space between the term code and the course number does not fit the
      pattern: after the term's two digits it needs the "1" of the course group. */
  lemma SpacedLineDoesNotMatch()
    ensures MatchAt(SpacedLine, 0).None?
  {
    SpacedLineTwoLetters();
    SpacedLineOneLetter();
  }

  /** "F2" is not two capitals. */
  lemma SpacedLineTwoLetters()
    ensures TermWith(SpacedLine, 0, 2, 1).None? && TermWith(SpacedLine, 0, 2, 0).None?
  {
    var s := SpacedLine;
    assert s[1] == '2';
    assert s[0..2][1] == s[1];
  }

  /** "2" is not whitespace, and "F24" is followed by a space, not by "1". */
  lemma SpacedLineOneLetter()
    ensures TermWith(SpacedLine, 0, 1, 1).None? && TermWith(SpacedLine, 0, 1, 0).None?
  {
    var s := SpacedLine;
    assert s[..4] == "F24 ";
    assert s[1] == s[..4][1] == '2' && s[3] == s[..4][3] == ' ';
    assert s[1..2][0] == s[1];
    CourseAtNeedsOne(s, 0, 3);
  }
}
