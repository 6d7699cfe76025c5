/** String primitives shared by the model: character classes, the JavaScript and
    Python whitespace sets, substring search, split/join with a non-empty
    separator, trimming and deletion of every occurrence of a pattern. */
module Text {

  datatype Option<T> = None | Some(value: T)

  predicate IsUpper(c: char) { 'A' <= c <= 'Z' }

  predicate IsDigit(c: char) { '0' <= c <= '9' }

  function DigitValue(c: char): (d: nat)
    requires IsDigit(c)
    ensures d < 10
  {
    c as int - '0' as int
  }

  /** The line terminators of JavaScript (`^` in multiline mode, `.`): LF, CR,
      LINE SEPARATOR and PARAGRAPH SEPARATOR. */
  predicate IsLineTerminator(c: char)
  {
    c == '\n' || c == '\r' || c as int == 0x2028 || c as int == 0x2029
  }

  /** Whichever language's notion of whitespace a trim uses. */
  datatype Whitespace = JsSpace | PySpace

  /** `\s` and `String.prototype.trim` in JavaScript (the white space and line
      terminator characters of ECMAScript, the byte order mark among them) and
      `str.isspace` in Python (which leaves out the byte order mark and adds the
      separators 0x1C-0x1F and NEXT LINE). */
  predicate IsSpace(w: Whitespace, c: char)
  {
    var n := c as int;
    (9 <= n <= 13) || n == 0x20 || n == 0xA0 || n == 0x1680 || (0x2000 <= n <= 0x200A)
    || n == 0x2028 || n == 0x2029 || n == 0x202F || n == 0x205F || n == 0x3000
    || (if w == JsSpace then n == 0xFEFF else (28 <= n <= 31) || n == 0x85)
  }

  predicate AllUpper(s: string) { forall i :: 0 <= i < |s| ==> IsUpper(s[i]) }

  predicate AllDigits(s: string) { forall i :: 0 <= i < |s| ==> IsDigit(s[i]) }

  predicate AllSpace(w: Whitespace, s: string) { forall i :: 0 <= i < |s| ==> IsSpace(w, s[i]) }

  // ---------------------------------------------------------------------------
  // Trimming

  /** No whitespace at either end. */
  predicate IsStripped(w: Whitespace, s: string)
  {
    s == [] || (!IsSpace(w, s[0]) && !IsSpace(w, s[|s| - 1]))
  }

  /** The first position at or after `i` that does not hold whitespace, or
      the length of `s`. */
  function SpaceRunEnd(w: Whitespace, s: string, i: nat): (n: nat)
    requires i <= |s|
    ensures i <= n <= |s|
    ensures forall j :: i <= j < n ==> IsSpace(w, s[j])
    ensures n == |s| || !IsSpace(w, s[n])
    decreases |s| - i
  {
    if i < |s| && IsSpace(w, s[i]) then SpaceRunEnd(w, s, i + 1) else i
  }

  /** The position where the whitespace run ending just before `j` begins. */
  function SpaceRunStart(w: Whitespace, s: string, j: nat): (n: nat)
    requires j <= |s|
    ensures n <= j
    ensures forall k :: n <= k < j ==> IsSpace(w, s[k])
    ensures n == 0 || !IsSpace(w, s[n - 1])
    decreases j
  {
    if j > 0 && IsSpace(w, s[j - 1]) then SpaceRunStart(w, s, j - 1) else j
  }

  /** `trimStart` / `lstrip`: everything from the first non-whitespace character on. */
  function TrimStart(w: Whitespace, s: string): (r: string)
    ensures |r| <= |s| && r == s[|s| - |r|..]
    ensures AllSpace(w, s[..|s| - |r|])
    ensures r == [] || !IsSpace(w, r[0])
  {
    s[SpaceRunEnd(w, s, 0)..]
  }

  /** `trimEnd` / `rstrip`: everything up to the last non-whitespace character. */
  function TrimEnd(w: Whitespace, s: string): (r: string)
    ensures |r| <= |s| && r == s[..|r|]
    ensures AllSpace(w, s[|r|..])
    ensures r == [] || !IsSpace(w, r[|r| - 1])
  {
    s[..SpaceRunStart(w, s, |s|)]
  }

  /** Where `Strip` cuts: the length of the leading whitespace. */
  function StripOffset(w: Whitespace, s: string): (k: nat)
    ensures k <= |s|
  {
    |s| - |TrimStart(w, s)|
  }

  /** Python's `str.strip()` / JavaScript's `trim()`: the longest middle part of
      `s` whose two ends are not whitespace; what is cut off is all whitespace. */
  function Strip(w: Whitespace, s: string): (r: string)
    ensures IsStripped(w, r)
    ensures StripOffset(w, s) + |r| <= |s|
    ensures r == s[StripOffset(w, s)..StripOffset(w, s) + |r|]
    ensures AllSpace(w, s[..StripOffset(w, s)])
    ensures AllSpace(w, s[StripOffset(w, s) + |r|..])
  {
    var a := TrimStart(w, s);
    var r := TrimEnd(w, a);
    var i := |s| - |a|;
    SuffixSlices(s, i, |r|);
    assert IsStripped(w, r) by {
      assert r != [] ==> r[0] == a[0];
    }
    r
  }

  lemma SuffixSlices(s: string, i: nat, m: nat)
    requires i + m <= |s|
    ensures s[i..][..m] == s[i..i + m]
    ensures s[i..][m..] == s[i + m..]
  {
  }

  /** Stripping a string that has no whitespace at its ends changes nothing. */
  lemma StripStripped(w: Whitespace, s: string)
    requires IsStripped(w, s)
    ensures Strip(w, s) == s
  {
    assert SpaceRunEnd(w, s, 0) == 0;
    assert TrimStart(w, s) == s[0..] == s;
    assert SpaceRunStart(w, s, |s|) == |s|;
    assert TrimEnd(w, s) == s[..|s|] == s;
  }

  /** A pattern absent from a string is absent from its strip. */
  lemma StripKeepsAbsence(w: Whitespace, s: string, p: string)
    requires !Contains(s, p)
    ensures !Contains(Strip(w, s), p)
  {
    NotContainsSlice(s, p, StripOffset(w, s), StripOffset(w, s) + |Strip(w, s)|);
  }

  /** One whitespace character at each end makes no difference to a strip. */
  lemma StripPadded(w: Whitespace, c: char, s: string, d: char)
    requires IsSpace(w, c) && IsSpace(w, d)
    ensures Strip(w, [c] + s + [d]) == Strip(w, s)
  {
    var x := [c] + s + [d];
    assert x == [c] + (s + [d]);
    TrimStartCons(w, c, s + [d]);
    TrimStartSnoc(w, s, d);
    StripIsTrims(w, x);
    StripIsTrims(w, s);
  }

  /** `Strip` trims the start, then the end. */
  lemma StripIsTrims(w: Whitespace, s: string)
    ensures Strip(w, s) == TrimEnd(w, TrimStart(w, s))
  {
  }

  /** A whitespace character in front disappears in `TrimStart`. */
  lemma TrimStartCons(w: Whitespace, c: char, s: string)
    requires IsSpace(w, c)
    ensures TrimStart(w, [c] + s) == TrimStart(w, s)
  {
    var t := [c] + s;
    var n := SpaceRunEnd(w, t, 0);
    var m := SpaceRunEnd(w, s, 0);
    assert n == SpaceRunEnd(w, t, 1);
    assert forall j :: 0 <= j < |s| ==> t[j + 1] == s[j];
    assert n == m + 1;
    assert t[n..] == s[m..];
  }

  /** A whitespace character at the end disappears in the strip. */
  lemma TrimStartSnoc(w: Whitespace, s: string, d: char)
    requires IsSpace(w, d)
    ensures TrimEnd(w, TrimStart(w, s + [d])) == TrimEnd(w, TrimStart(w, s))
  {
    var t := s + [d];
    var n := SpaceRunEnd(w, t, 0);
    var m := SpaceRunEnd(w, s, 0);
    assert forall j :: 0 <= j < |s| ==> t[j] == s[j];
    if m < |s| {
      assert n == m;
      assert TrimStart(w, t) == TrimStart(w, s) + [d];
      TrimEndSnoc(w, TrimStart(w, s), d);
    } else {
      assert n == |t|;
    }
  }

  /** A whitespace character at the end disappears in `TrimEnd`. */
  lemma TrimEndSnoc(w: Whitespace, s: string, d: char)
    requires IsSpace(w, d)
    ensures TrimEnd(w, s + [d]) == TrimEnd(w, s)
  {
    var t := s + [d];
    assert SpaceRunStart(w, t, |t|) == SpaceRunStart(w, t, |s|);
    SpaceRunStartAgree(w, s, t, |s|);
    assert t[..SpaceRunStart(w, s, |s|)] == s[..SpaceRunStart(w, s, |s|)];
  }

  /** The whitespace run before `j` depends only on the text before `j`. */
  lemma {:induction false} SpaceRunStartAgree(w: Whitespace, s: string, t: string, j: nat)
    requires j <= |s| && j <= |t| && s[..j] == t[..j]
    ensures SpaceRunStart(w, s, j) == SpaceRunStart(w, t, j)
    decreases j
  {
    if j > 0 {
      assert s[j - 1] == s[..j][j - 1] == t[..j][j - 1] == t[j - 1];
      assert s[..j - 1] == s[..j][..j - 1];
      assert t[..j - 1] == t[..j][..j - 1];
      SpaceRunStartAgree(w, s, t, j - 1);
    }
  }

  // ---------------------------------------------------------------------------
  // Substring search

  predicate OccursAt(s: string, p: string, i: int)
  {
    0 <= i && i + |p| <= |s| && s[i..i + |p|] == p
  }

  /** Python's `p in s`, JavaScript's `s.includes(p)`. */
  predicate Contains(s: string, p: string)
  {
    exists i :: 0 <= i <= |s| - |p| && OccursAt(s, p, i)
  }

  /** An occurrence inside a slice is an occurrence in the whole string. */
  lemma SliceOccurs(s: string, p: string, a: int, b: int, i: int)
    requires 0 <= a <= b <= |s|
    requires OccursAt(s[a..b], p, i)
    ensures OccursAt(s, p, a + i)
  {
    var t := s[a..b];
    forall k | 0 <= k < |p| ensures s[a + i..a + i + |p|][k] == p[k] {
      assert p[k] == t[i..i + |p|][k];
    }
  }

  /** A slice of a string that does not contain `p` does not contain `p` either. */
  lemma NotContainsSlice(s: string, p: string, a: int, b: int)
    requires 0 <= a <= b <= |s|
    requires !Contains(s, p)
    ensures !Contains(s[a..b], p)
  {
    if Contains(s[a..b], p) {
      var i :| 0 <= i <= b - a - |p| && OccursAt(s[a..b], p, i);
      SliceOccurs(s, p, a, b, i);
    }
  }

  /** A string without the character `c` does not contain it. */
  lemma NoCharNotContains(s: string, c: char)
    requires forall i :: 0 <= i < |s| ==> s[i] != c
    ensures !Contains(s, [c])
  {
    forall i | 0 <= i <= |s| - 1 ensures !OccursAt(s, [c], i) {
      assert s[i..i + 1][0] == s[i];
    }
  }

  /** A string that does not contain `[c]` has no character `c`. */
  lemma ContainsChar(s: string, c: char)
    requires !Contains(s, [c])
    ensures forall i :: 0 <= i < |s| ==> s[i] != c
  {
    forall i | 0 <= i < |s| ensures s[i] != c {
      assert s[i] == c ==> OccursAt(s, [c], i);
    }
  }

  /** The first occurrence of `p` in `s` at or after position `k`. */
  function IndexFrom(s: string, p: string, k: nat): (r: Option<nat>)
    requires |p| > 0 && k <= |s|
    ensures r.Some? ==> k <= r.value && OccursAt(s, p, r.value)
                        && forall j :: k <= j < r.value ==> !OccursAt(s, p, j)
    ensures r.None? ==> forall j :: k <= j ==> !OccursAt(s, p, j)
    decreases |s| - k
  {
    if k + |p| > |s| then None
    else if s[k..k + |p|] == p then Some(k)
    else IndexFrom(s, p, k + 1)
  }

  lemma IndexFromContains(s: string, p: string)
    requires |p| > 0
    ensures IndexFrom(s, p, 0).Some? <==> Contains(s, p)
  {
    if Contains(s, p) {
      var i :| OccursAt(s, p, i);
    }
  }

  // ---------------------------------------------------------------------------
  // Split and join

  /** `s.split(sep)` in both JavaScript and Python: the pieces between the
      non-overlapping occurrences of `sep` found from left to right. */
  function Split(s: string, sep: string): (parts: seq<string>)
    requires |sep| > 0
    ensures |parts| >= 1
    decreases |s|
  {
    match IndexFrom(s, sep, 0)
    case None => [s]
    case Some(i) => [s[..i]] + Split(s[i + |sep|..], sep)
  }

  /** `parts.join(sep)` / `sep.join(parts)`. */
  function Join(parts: seq<string>, sep: string): string
  {
    if parts == [] then ""
    else if |parts| == 1 then parts[0]
    else parts[0] + sep + Join(parts[1..], sep)
  }

  /** Joining the pieces of a split with the same separator gives back the string. */
  lemma {:induction false} JoinSplit(s: string, sep: string)
    requires |sep| > 0
    ensures Join(Split(s, sep), sep) == s
    decreases |s|
  {
    var r := IndexFrom(s, sep, 0);
    if r.Some? {
      var i := r.value;
      var rest := s[i + |sep|..];
      SplitSome(s, sep, i);
      JoinSplit(rest, sep);
      JoinCons(s[..i], Split(rest, sep), sep);
    }
  }

  /** A split at a first occurrence: the piece before it, then the split of
      what follows it. */
  lemma SplitSome(s: string, sep: string, i: nat)
    requires |sep| > 0 && IndexFrom(s, sep, 0) == Some(i)
    ensures i + |sep| <= |s|
    ensures Split(s, sep) == [s[..i]] + Split(s[i + |sep|..], sep)
    ensures s == s[..i] + sep + s[i + |sep|..]
  {
    assert s[i..i + |sep|] == sep;
    ThreeSlices(s, i, i + |sep|);
  }

  lemma ThreeSlices(s: string, i: nat, j: nat)
    requires i <= j <= |s|
    ensures s == s[..i] + s[i..j] + s[j..]
  {
  }

  lemma JoinCons(x: string, ys: seq<string>, sep: string)
    requires |ys| >= 1
    ensures Join([x] + ys, sep) == x + sep + Join(ys, sep)
  {
    assert ([x] + ys)[1..] == ys;
  }

  /** A split has more than one piece exactly when the separator occurs. */
  lemma SplitCount(s: string, sep: string)
    requires |sep| > 0
    ensures |Split(s, sep)| > 1 <==> Contains(s, sep)
  {
    IndexFromContains(s, sep);
  }

  /** No piece of a split contains the separator. */
  lemma {:induction false} SplitPartsFree(s: string, sep: string)
    requires |sep| > 0
    ensures forall k :: 0 <= k < |Split(s, sep)| ==> !Contains(Split(s, sep)[k], sep)
    decreases |s|
  {
    match IndexFrom(s, sep, 0)
    case None =>
    case Some(i) =>
      var rest := s[i + |sep|..];
      SplitPartsFree(rest, sep);
      if Contains(s[..i], sep) {
        var j :| 0 <= j <= i - |sep| && OccursAt(s[..i], sep, j);
        SliceOccurs(s, sep, 0, i, j);
      }
      assert Split(s, sep) == [s[..i]] + Split(rest, sep);
  }

  /** The first piece and the rest joined back, with the separator between them,
      make up the string. */
  lemma SplitFirstRest(s: string, sep: string)
    requires |sep| > 0 && |Split(s, sep)| > 1
    ensures Split(s, sep)[0] + sep + Join(Split(s, sep)[1..], sep) == s
  {
    JoinSplit(s, sep);
  }

  /** A string without the separator splits into itself. */
  lemma SplitNoSep(s: string, sep: string)
    requires |sep| > 0 && !Contains(s, sep)
    ensures Split(s, sep) == [s]
  {
    IndexFromContains(s, sep);
  }

  /** A one-character separator that does not occur in `a` splits `a + sep + b`
      right after `a`. */
  lemma SplitCons(a: string, sep: string, b: string)
    requires |sep| == 1 && !Contains(a, sep)
    ensures Split(a + sep + b, sep) == [a] + Split(b, sep)
  {
    var s := a + sep + b;
    assert OccursAt(s, sep, |a|);
    forall j | 0 <= j < |a| ensures !OccursAt(s, sep, j) {
      if OccursAt(s, sep, j) {
        assert s[j..j + 1] == a[j..j + 1];
        assert OccursAt(a, sep, j);
      }
    }
    assert IndexFrom(s, sep, 0) == Some(|a|);
    assert s[..|a|] == a;
    assert s[|a| + 1..] == b;
  }

  /** When `sep` does not occur in `a + sep + b` before the end of `a`, the
      split cuts right after `a`. */
  lemma SplitAt(a: string, sep: string, b: string)
    requires |sep| > 0
    requires forall j :: 0 <= j < |a| ==> !OccursAt(a + sep + b, sep, j)
    ensures Split(a + sep + b, sep) == [a] + Split(b, sep)
  {
    var s := a + sep + b;
    assert OccursAt(s, sep, |a|) by {
      assert s[|a|..|a| + |sep|] == sep;
    }
    assert IndexFrom(s, sep, 0) == Some(|a|);
    assert s[..|a|] == a;
    assert s[|a| + |sep|..] == b;
  }

  /** The first piece of a split is a prefix of the string. */
  lemma SplitFirstPrefix(s: string, sep: string)
    requires |sep| > 0
    ensures |Split(s, sep)[0]| <= |s| && Split(s, sep)[0] == s[..|Split(s, sep)[0]|]
  {
  }

  /** The piece last in the split of `s`. */
  function LastPart(s: string, sep: string): (r: string)
    requires |sep| > 0
  {
    var parts := Split(s, sep);
    parts[|parts| - 1]
  }

  /** The last piece never contains the separator, and when the separator does
      occur the string is some prefix, the separator, then that piece. */
  lemma LastPartAfterSeparator(s: string, sep: string)
    requires |sep| > 0
    ensures !Contains(LastPart(s, sep), sep)
    ensures Contains(s, sep) ==>
              exists k :: OccursAt(s, sep, k) && LastPart(s, sep) == s[k + |sep|..]
    ensures !Contains(s, sep) ==> LastPart(s, sep) == s
  {
    SplitPartsFree(s, sep);
    if Contains(s, sep) {
      var parts := Split(s, sep);
      SplitCount(s, sep);
      JoinLast(parts, sep);
      JoinSplit(s, sep);
      var front := Join(parts[..|parts| - 1], sep);
      var k := |front|;
      assert s == front + sep + parts[|parts| - 1];
      assert s[k..k + |sep|] == sep;
      assert s[k + |sep|..] == parts[|parts| - 1];
      assert OccursAt(s, sep, k);
    } else {
      SplitNoSep(s, sep);
    }
  }

  /** For a separator whose first character does not recur in it, the last
      piece of `x + sep + q` is `q` when `q` holds no separator: nothing in `x`
      or in the separator itself can start a later occurrence. */
  lemma LastPartSuffix(x: string, sep: string, q: string)
    requires |sep| > 0 && forall j :: 0 < j < |sep| ==> sep[j] != sep[0]
    requires !Contains(q, sep)
    ensures LastPart(x + sep + q, sep) == q
  {
    OccurrencesAroundSeparator(x, sep, q);
    LastPartAfterLast(x, sep, q);
  }

  /** When every occurrence of `sep` in `x + sep + q` lies inside `x` or right
      after it, the last piece is `q`. */
  lemma LastPartAfterLast(x: string, sep: string, q: string)
    requires |sep| > 0
    requires forall p :: OccursAt(x + sep + q, sep, p) ==> p + |sep| <= |x| || p == |x|
    ensures LastPart(x + sep + q, sep) == q
  {
    var s := x + sep + q;
    var n := |sep|;
    assert OccursAt(s, sep, |x|) by {
      assert s[|x|..|x| + n] == sep;
    }
    LastPartAfterSeparator(s, sep);
    var k :| OccursAt(s, sep, k) && LastPart(s, sep) == s[k + n..];
    if k + n <= |x| {
      SeparatorAfter(x, sep, q, k + n);
    }
    assert k == |x|;
    assert s[|x| + n..] == q;
  }

  /** Every suffix of `x + sep + q` starting inside `x` holds the separator. */
  lemma SeparatorAfter(x: string, sep: string, q: string, m: nat)
    requires m <= |x|
    ensures Contains((x + sep + q)[m..], sep)
  {
    var s := x + sep + q;
    assert s[m..][|x| - m..|x| - m + |sep|] == s[|x|..|x| + |sep|] == sep;
    assert OccursAt(s[m..], sep, |x| - m);
  }

  /** Under the conditions of `LastPartSuffix`, an occurrence of `sep` in
      `x + sep + q` lies inside `x` or is the one right after `x`. */
  lemma OccurrencesAroundSeparator(x: string, sep: string, q: string)
    requires |sep| > 0 && forall j :: 0 < j < |sep| ==> sep[j] != sep[0]
    requires !Contains(q, sep)
    ensures forall p :: OccursAt(x + sep + q, sep, p) ==> p + |sep| <= |x| || p == |x|
  {
    var s := x + sep + q;
    var n := |sep|;
    forall p | |x| < p && p + n <= |s| ensures !OccursAt(s, sep, p) {
      if p < |x| + n {
        assert s[p..p + n][0] == s[p] == sep[p - |x|];
      } else {
        assert s[p..p + n] == q[p - |x| - n..p - |x|];
        assert !OccursAt(q, sep, p - |x| - n);
      }
    }
    forall p | 0 <= p < |x| < p + n && p + n <= |s| ensures !OccursAt(s, sep, p) {
      assert s[p..p + n][|x| - p] == s[|x|] == sep[0];
    }
  }

  lemma {:induction false} JoinLast(parts: seq<string>, sep: string)
    requires |parts| > 1
    ensures Join(parts, sep) == Join(parts[..|parts| - 1], sep) + sep + parts[|parts| - 1]
    decreases |parts|
  {
    if |parts| > 2 {
      JoinLast(parts[1..], sep);
      assert parts[1..][..|parts[1..]| - 1] == parts[..|parts| - 1][1..];
      assert parts[1..][|parts[1..]| - 1] == parts[|parts| - 1];
    } else {
      assert parts[..1] == [parts[0]];
    }
  }

  // ---------------------------------------------------------------------------
  // Deleting every occurrence

  function Concat(parts: seq<string>): string
  {
    if parts == [] then "" else parts[0] + Concat(parts[1..])
  }

  /** Python's `s.replace(p, "")`: every non-overlapping occurrence found from
      left to right is deleted. */
  function RemoveAll(s: string, p: string): (r: string)
    requires |p| > 0
  {
    Concat(Split(s, p))
  }

  /** Deleting a pattern that does not occur changes nothing. */
  lemma RemoveAllAbsent(s: string, p: string)
    requires |p| > 0 && !Contains(s, p)
    ensures RemoveAll(s, p) == s
  {
    SplitNoSep(s, p);
    assert Concat([s]) == s + Concat([]);
  }

  /** Deleting a run of one repeated character, such as a code fence, leaves
      no such run behind: a piece followed by the run never ends with that
      character, since the run would then have started one place earlier. */
  lemma {:induction false} RemoveAllRunFree(s: string, p: string)
    requires |p| > 0 && forall i :: 0 <= i < |p| ==> p[i] == p[0]
    ensures !Contains(RemoveAll(s, p), p)
    decreases |s|
  {
    match IndexFrom(s, p, 0)
    case None =>
      IndexFromContains(s, p);
      RemoveAllAbsent(s, p);
    case Some(i) =>
      var rest := s[i + |p|..];
      SplitSome(s, p, i);
      RemoveAllRunFree(rest, p);
      assert RemoveAll(s, p) == s[..i] + RemoveAll(rest, p) by {
        assert ([s[..i]] + Split(rest, p))[1..] == Split(rest, p);
      }
      PieceBeforeRun(s, p, i);
      RunFreeConcat(s[..i], RemoveAll(rest, p), p);
  }

  /** The text before the first occurrence of a run holds no run and does not
      end with the run's character. */
  lemma PieceBeforeRun(s: string, p: string, i: nat)
    requires |p| > 0 && forall k :: 0 <= k < |p| ==> p[k] == p[0]
    requires IndexFrom(s, p, 0) == Some(i)
    ensures !Contains(s[..i], p)
    ensures i == 0 || s[i - 1] != p[0]
  {
    var n := |p|;
    forall j | 0 <= j <= i - n ensures !OccursAt(s[..i], p, j) {
      assert s[..i][j..j + n] == s[j..j + n];
      assert !OccursAt(s, p, j);
    }
    if i > 0 {
      RunNotOneEarlier(s, p, i);
    }
  }

  lemma RunNotOneEarlier(s: string, p: string, i: nat)
    requires |p| > 0 && forall k :: 0 <= k < |p| ==> p[k] == p[0]
    requires 0 < i && OccursAt(s, p, i) && !OccursAt(s, p, i - 1)
    ensures s[i - 1] != p[0]
  {
    var n := |p|;
    var u := s[i - 1..i - 1 + n];
    forall k | 1 <= k < n ensures u[k] == p[k] {
      assert u[k] == s[i + k - 1] == s[i..i + n][k - 1];
    }
    assert u != p;
    assert u[0] == s[i - 1];
  }

  /** Two texts without a run, the first not ending with the run's character,
      make a text without a run. */
  lemma RunFreeConcat(a: string, r: string, p: string)
    requires |p| > 0 && forall k :: 0 <= k < |p| ==> p[k] == p[0]
    requires !Contains(a, p) && !Contains(r, p) && (a == [] || a[|a| - 1] != p[0])
    ensures !Contains(a + r, p)
  {
    var n := |p|;
    forall j | 0 <= j <= |a + r| - n ensures !OccursAt(a + r, p, j) {
      if j + n <= |a| {
        assert (a + r)[j..j + n] == a[j..j + n];
        assert !OccursAt(a, p, j);
      } else if j >= |a| {
        assert (a + r)[j..j + n] == r[j - |a|..j - |a| + n];
        assert !OccursAt(r, p, j - |a|);
      } else {
        var k := |a| - 1 - j;
        assert (a + r)[j..j + n][k] == (a + r)[|a| - 1] == a[|a| - 1];
        assert p[k] == p[0];
      }
    }
  }

  // ---------------------------------------------------------------------------
  // Removing characters

  /** `s.replace(/\s+/g, '')` in JavaScript. */
  function RemoveSpaces(s: string): (r: string)
    ensures forall i :: 0 <= i < |r| ==> !IsSpace(JsSpace, r[i])
    ensures |r| <= |s|
  {
    if s == [] then []
    else if IsSpace(JsSpace, s[0]) then RemoveSpaces(s[1..])
    else [s[0]] + RemoveSpaces(s[1..])
  }

  lemma {:induction false} RemoveSpacesConcat(a: string, b: string)
    ensures RemoveSpaces(a + b) == RemoveSpaces(a) + RemoveSpaces(b)
    decreases |a|
  {
    if a != [] {
      RemoveSpacesConcat(a[1..], b);
      assert (a + b)[0] == a[0];
      assert (a + b)[1..] == a[1..] + b;
      if !IsSpace(JsSpace, a[0]) {
        assert RemoveSpaces(a + b) == [a[0]] + (RemoveSpaces(a[1..]) + RemoveSpaces(b));
      }
    } else {
      assert a + b == b;
    }
  }

  /** A string without whitespace is left as it is. */
  lemma {:induction false} RemoveSpacesNone(s: string)
    requires forall i :: 0 <= i < |s| ==> !IsSpace(JsSpace, s[i])
    ensures RemoveSpaces(s) == s
    decreases |s|
  {
    if s != [] {
      RemoveSpacesNone(s[1..]);
    }
  }

  /** A string of whitespace disappears. */
  lemma {:induction false} RemoveSpacesAll(s: string)
    requires AllSpace(JsSpace, s)
    ensures RemoveSpaces(s) == []
    decreases |s|
  {
    if s != [] {
      RemoveSpacesAll(s[1..]);
    }
  }
}
