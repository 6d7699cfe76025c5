/** What `parseApasText` produces, stated against the matches of the transcript
    pattern: which term buckets exist, what the transfer list and each bucket
    contain, and that no list holds two entries with the same code and grade. */
module TranscriptFacts {
  import opened Text
  import opened Academic
  import opened Term
  import opened Grammar
  import opened Transcript

  /** A match reduced to what the loop body uses: its term key and its entry. */
  type Entry = (string, Course)

  function EntryOf(m: RawMatch): Entry
  {
    (TermName(m), ToCourse(m))
  }

  /** One entry per match, in match order (`EntriesAt` says which). */
  function Entries(ms: seq<RawMatch>): (es: seq<Entry>)
    ensures |es| == |ms|
    decreases |ms|
  {
    if ms == [] then [] else Entries(ms[..|ms| - 1]) + [EntryOf(ms[|ms| - 1])]
  }

  /** The entry at each position is the entry of the match there. */
  lemma {:induction false} EntriesAt(ms: seq<RawMatch>, j: int)
    requires 0 <= j < |ms|
    ensures Entries(ms)[j] == EntryOf(ms[j])
    decreases |ms|
  {
    if j < |ms| - 1 {
      var init := ms[..|ms| - 1];
      EntriesAt(init, j);
      assert Entries(ms)[j] == Entries(init)[j] && ms[j] == init[j];
    }
  }

  function FoldEntries(es: seq<Entry>): Parsed
    decreases |es|
  {
    if es == [] then EmptyParse
    else Insert(FoldEntries(es[..|es| - 1]), es[|es| - 1].0, es[|es| - 1].1)
  }

  lemma {:induction false} ParseFoldEntries(ms: seq<RawMatch>)
    ensures ParseFold(ms) == FoldEntries(Entries(ms))
    decreases |ms|
  {
    if ms != [] {
      ParseFoldEntries(ms[..|ms| - 1]);
      FoldEntriesLast(Entries(ms), ms[|ms| - 1]);
    }
  }

  /** The last step of the entry fold is the loop body on the last match. */
  lemma FoldEntriesLast(es: seq<Entry>, m: RawMatch)
    requires es != [] && es[|es| - 1] == EntryOf(m)
    ensures FoldEntries(es) == Step(FoldEntries(es[..|es| - 1]), m)
  {
  }

  // ---------------------------------------------------------------------------
  // The description of a parse result in terms of its entries

  /** Term buckets: one per term that occurs, transfer-only terms included. */
  predicate KeysFrom(p: Parsed, es: seq<Entry>)
  {
    (forall k :: k in p.semesters ==> exists j :: 0 <= j < |es| && es[j].0 == k)
    && (forall j :: 0 <= j < |es| ==> es[j].0 in p.semesters)
  }

  /** `x` is the entry of a transfer match. */
  predicate TransferEntry(es: seq<Entry>, x: Course)
  {
    exists j :: 0 <= j < |es| && IsTransferGrade(es[j].1.grade) && es[j].1 == x
  }

  /** `x` is the entry of a non-transfer match of term `k`. */
  predicate TermEntry(es: seq<Entry>, k: string, x: Course)
  {
    exists j :: 0 <= j < |es| && !IsTransferGrade(es[j].1.grade) && es[j].0 == k && es[j].1 == x
  }

  /** The transfer list: duplicate-free, made of transfer entries only, and
      holding every transfer entry's code and grade. */
  predicate TransfersFrom(p: Parsed, es: seq<Entry>)
  {
    UniquePairs(p.transferCourses)
    && (forall i :: 0 <= i < |p.transferCourses| ==> TransferEntry(es, p.transferCourses[i]))
    && (forall j :: 0 <= j < |es| && IsTransferGrade(es[j].1.grade) ==> HasPair(p.transferCourses, es[j].1))
  }

  /** Each bucket: duplicate-free, made of the non-transfer entries of its term
      only, and holding every such entry's code and grade. */
  predicate BucketsFrom(p: Parsed, es: seq<Entry>)
  {
    (forall k :: k in p.semesters ==> UniquePairs(p.semesters[k]))
    && (forall k, i :: k in p.semesters && 0 <= i < |p.semesters[k]| ==>
          TermEntry(es, k, p.semesters[k][i]))
    && (forall j :: 0 <= j < |es| && !IsTransferGrade(es[j].1.grade) ==>
          es[j].0 in p.semesters && HasPair(p.semesters[es[j].0], es[j].1))
  }

  lemma HasPairAppend(l: seq<Course>, y: Course, x: Course)
    requires HasPair(l, x)
    ensures HasPair(l + [y], x)
  {
    var i :| 0 <= i < |l| && SamePair(l[i], x);
    assert (l + [y])[i] == l[i];
  }

  lemma HasPairLast(l: seq<Course>, x: Course)
    ensures HasPair(l + [x], x)
  {
    assert (l + [x])[|l|] == x;
  }

  /** `es'` is `es` followed by the entry `(name, c)`. */
  predicate Extends(es: seq<Entry>, es': seq<Entry>, name: string, c: Course)
  {
    |es'| == |es| + 1 && es'[|es|] == (name, c) && forall j :: 0 <= j < |es| ==> es'[j] == es[j]
  }

  lemma InsertKeys(acc: Parsed, es: seq<Entry>, es': seq<Entry>, name: string, c: Course)
    requires KeysFrom(acc, es) && Extends(es, es', name, c)
    ensures KeysFrom(Insert(acc, name, c), es')
  {
    var p := Insert(acc, name, c);
    assert p.semesters.Keys == acc.semesters.Keys + {name};
    forall k | k in p.semesters ensures exists j :: 0 <= j < |es'| && es'[j].0 == k {
      if k == name {
        assert es'[|es|].0 == k;
      } else {
        var j :| 0 <= j < |es| && es[j].0 == k;
        assert es'[j] == es[j];
      }
    }
    forall j | 0 <= j < |es'| ensures es'[j].0 in p.semesters {
      if j < |es| {
        assert es'[j] == es[j];
      }
    }
  }

  lemma InsertTransfers(acc: Parsed, es: seq<Entry>, es': seq<Entry>, name: string, c: Course)
    requires TransfersFrom(acc, es) && Extends(es, es', name, c)
    ensures TransfersFrom(Insert(acc, name, c), es')
  {
    var p := Insert(acc, name, c);
    var t := acc.transferCourses;
    var t' := p.transferCourses;
    assert t' == t || (IsTransferGrade(c.grade) && !HasPair(t, c) && t' == t + [c]);
    if t' != t {
      AppendNewPair(t, c);
    }
    forall i | 0 <= i < |t'| ensures TransferEntry(es', t'[i]) {
      if i < |t| {
        assert TransferEntry(es, t[i]);
        var j :| 0 <= j < |es| && IsTransferGrade(es[j].1.grade) && es[j].1 == t[i];
        assert es'[j] == es[j] && t'[i] == t[i];
      } else {
        assert es'[|es|].1 == t'[i];
      }
    }
    forall j | 0 <= j < |es'| && IsTransferGrade(es'[j].1.grade) ensures HasPair(t', es'[j].1) {
      if j < |es| {
        assert es'[j] == es[j];
        if t' != t {
          HasPairAppend(t, c, es[j].1);
        }
      } else if t' != t {
        HasPairLast(t, c);
      }
    }
  }

  /** The bucket of `name` after the loop body: the old one (or a new empty
      one), with `c` appended when it is a new non-transfer pair; the other
      buckets are untouched. */
  lemma InsertBucket(acc: Parsed, name: string, c: Course)
    ensures var p := Insert(acc, name, c);
            var old0: seq<Course> := if name in acc.semesters then acc.semesters[name] else [];
            && p.semesters.Keys == acc.semesters.Keys + {name}
            && (forall k :: k in acc.semesters && k != name ==> p.semesters[k] == acc.semesters[k])
            && (p.semesters[name] == old0
                || (!IsTransferGrade(c.grade) && !HasPair(old0, c) && p.semesters[name] == old0 + [c]))
  {
  }

  lemma InsertBuckets(acc: Parsed, es: seq<Entry>, es': seq<Entry>, name: string, c: Course)
    requires BucketsFrom(acc, es) && Extends(es, es', name, c)
    ensures BucketsFrom(Insert(acc, name, c), es')
  {
    InsertBucket(acc, name, c);
    InsertBucketsUnique(acc, name, c);
    InsertBucketsSound(acc, es, es', name, c);
    InsertBucketsComplete(acc, es, es', name, c);
  }

  lemma InsertBucketsUnique(acc: Parsed, name: string, c: Course)
    requires forall k :: k in acc.semesters ==> UniquePairs(acc.semesters[k])
    ensures var p := Insert(acc, name, c); forall k :: k in p.semesters ==> UniquePairs(p.semesters[k])
  {
    var p := Insert(acc, name, c);
    InsertBucket(acc, name, c);
    var old0: seq<Course> := if name in acc.semesters then acc.semesters[name] else [];
    if p.semesters[name] != old0 {
      AppendNewPair(old0, c);
    }
  }

  lemma InsertBucketsSound(acc: Parsed, es: seq<Entry>, es': seq<Entry>, name: string, c: Course)
    requires forall k, i :: k in acc.semesters && 0 <= i < |acc.semesters[k]| ==> TermEntry(es, k, acc.semesters[k][i])
    requires Extends(es, es', name, c)
    ensures var p := Insert(acc, name, c);
            forall k, i :: k in p.semesters && 0 <= i < |p.semesters[k]| ==> TermEntry(es', k, p.semesters[k][i])
  {
    var p := Insert(acc, name, c);
    InsertBucket(acc, name, c);
    var old0: seq<Course> := if name in acc.semesters then acc.semesters[name] else [];
    forall k, i | k in p.semesters && 0 <= i < |p.semesters[k]| ensures TermEntry(es', k, p.semesters[k][i]) {
      if k == name && i == |old0| {
        assert es'[|es|] == (name, c);
      } else {
        assert k in acc.semesters && p.semesters[k][i] == acc.semesters[k][i];
        assert TermEntry(es, k, acc.semesters[k][i]);
        var j :| 0 <= j < |es| && !IsTransferGrade(es[j].1.grade) && es[j].0 == k
                 && es[j].1 == acc.semesters[k][i];
        assert es'[j] == es[j];
      }
    }
  }

  lemma InsertBucketsComplete(acc: Parsed, es: seq<Entry>, es': seq<Entry>, name: string, c: Course)
    requires forall j :: 0 <= j < |es| && !IsTransferGrade(es[j].1.grade) ==>
               es[j].0 in acc.semesters && HasPair(acc.semesters[es[j].0], es[j].1)
    requires Extends(es, es', name, c)
    ensures var p := Insert(acc, name, c);
            forall j :: 0 <= j < |es'| && !IsTransferGrade(es'[j].1.grade) ==>
              es'[j].0 in p.semesters && HasPair(p.semesters[es'[j].0], es'[j].1)
  {
    var p := Insert(acc, name, c);
    InsertBucket(acc, name, c);
    var old0: seq<Course> := if name in acc.semesters then acc.semesters[name] else [];
    var b := p.semesters[name];
    forall j | 0 <= j < |es'| && !IsTransferGrade(es'[j].1.grade)
      ensures es'[j].0 in p.semesters && HasPair(p.semesters[es'[j].0], es'[j].1)
    {
      if j < |es| {
        assert es'[j] == es[j];
        if es[j].0 == name && b != old0 {
          HasPairAppend(old0, c, es[j].1);
        }
      } else if b != old0 {
        HasPairLast(old0, c);
      }
    }
  }

  /** The loop keeps the description true, match after match. */
  lemma {:induction false} FoldDescribed(es: seq<Entry>)
    ensures KeysFrom(FoldEntries(es), es)
    ensures TransfersFrom(FoldEntries(es), es)
    ensures BucketsFrom(FoldEntries(es), es)
    decreases |es|
  {
    if es != [] {
      FoldDescribed(es[..|es| - 1]);
      DescribedStep(es);
    }
  }

  /** One loop body keeps the description true. */
  lemma DescribedStep(es: seq<Entry>)
    requires es != []
    requires KeysFrom(FoldEntries(es[..|es| - 1]), es[..|es| - 1])
    requires TransfersFrom(FoldEntries(es[..|es| - 1]), es[..|es| - 1])
    requires BucketsFrom(FoldEntries(es[..|es| - 1]), es[..|es| - 1])
    ensures KeysFrom(FoldEntries(es), es)
    ensures TransfersFrom(FoldEntries(es), es)
    ensures BucketsFrom(FoldEntries(es), es)
  {
    var init, e := es[..|es| - 1], es[|es| - 1];
    assert Extends(init, es, e.0, e.1);
    InsertKeys(FoldEntries(init), init, es, e.0, e.1);
    InsertTransfers(FoldEntries(init), init, es, e.0, e.1);
    InsertBuckets(FoldEntries(init), init, es, e.0, e.1);
  }

  // ---------------------------------------------------------------------------
  // The parser's result

  /** The result of parsing `s`, described by the entries of its matches. */
  lemma ParseApasDescribed(s: string)
    ensures KeysFrom(ParseApas(Some(s)), Entries(Matches(s)))
    ensures TransfersFrom(ParseApas(Some(s)), Entries(Matches(s)))
    ensures BucketsFrom(ParseApas(Some(s)), Entries(Matches(s)))
  {
    BlankGuardRedundant(s);
    ParseFoldEntries(Matches(s));
    FoldDescribed(Entries(Matches(s)));
  }

  /** No match can start where there is no capital letter. */
  lemma MatchNeedsCapital(s: string, p: nat)
    requires p == |s| || (p < |s| && !IsUpper(s[p]))
    ensures MatchAt(s, p).None?
  {
    if AtLineStart(s, p) {
      TermNeedsCapital(s, p, 2, 1);
      TermNeedsCapital(s, p, 2, 0);
      TermNeedsCapital(s, p, 1, 1);
      TermNeedsCapital(s, p, 1, 0);
    }
  }

  lemma TermNeedsCapital(s: string, p: nat, n: nat, w: nat)
    requires p == |s| || (p < |s| && !IsUpper(s[p]))
    requires 1 <= n <= 2 && w <= 1
    ensures TermWith(s, p, n, w).None?
  {
    if p + n + w + 2 <= |s| {
      assert s[p..p + n][0] == s[p];
    }
  }

  /** The early return for blank text changes nothing: text that is empty
      after trimming has no match, so the loop would produce the same empty
      result. */
  lemma BlankGuardRedundant(s: string)
    ensures ParseApas(Some(s)) == ParseFold(Matches(s))
  {
    if Strip(JsSpace, s) == [] {
      var off := StripOffset(JsSpace, s);
      assert s == s[..off] + s[off..];
      forall i | 0 <= i < |s| ensures IsSpace(JsSpace, s[i]) {
        assert s[..off][i] == s[i];
      }
      forall p: nat | p <= |s| ensures MatchAt(s, p).None? {
        MatchNeedsCapital(s, p);
      }
      FindFromFound(s, 0);
      assert FindFrom(s, 0).None?;
    }
  }

  /** Every term key is a display name "<season> 20<yy>". */
  lemma ParsedKeysAreTermNames(s: string)
    ensures forall k :: k in ParseApas(Some(s)).semesters ==> IsTermName(k)
  {
    ParseApasDescribed(s);
    var ms := Matches(s);
    var es := Entries(ms);
    MatchesOrdered(s, 0);
    forall k | k in ParseApas(Some(s)).semesters ensures IsTermName(k) {
      var j :| 0 <= j < |es| && es[j].0 == k;
      EntriesAt(ms, j);
      assert WellFormedMatch(s, ms[j]);
      TermNameIsDisplayName(ms[j].term);
    }
  }

  lemma TermNameIsDisplayName(t: string)
    requires TermToken(t)
    ensures IsTermName(ConvertTerm(Some(t)))
  {
    var n: nat, w: nat :| n <= 2 && w <= 1 && TermTokenSplit(t, n, w);
    assert t == t[..n] + t[n..n + w] + t[n + w..];
    GrammarTermConverted(t[..n], t[n..n + w], t[n + w..]);
  }

  /** No term name is a name every object inherits (each has a space, and none
      of those does), so the bucket test `!semesters[semesterName]` is true
      exactly when the key is new, the test `FileCourse` makes. */
  lemma TermNameNotInherited(r: string)
    requires IsTermName(r)
    ensures r !in InheritedNames
    ensures forall acc: map<string, seq<Course>> :: Truthy(acc, r) <==> r in acc
  {
    assert r[|r| - 5] == ' ';
  }

  /** A term whose lines all carry transfer grades still gets a bucket, and
      that bucket stays empty. */
  lemma TransferOnlyTermIsEmpty(s: string, k: string)
    requires exists j :: 0 <= j < |Entries(Matches(s))| && Entries(Matches(s))[j].0 == k
    requires forall j :: 0 <= j < |Entries(Matches(s))| && Entries(Matches(s))[j].0 == k
               ==> IsTransferGrade(Entries(Matches(s))[j].1.grade)
    ensures k in ParseApas(Some(s)).semesters && ParseApas(Some(s)).semesters[k] == []
  {
    ParseApasDescribed(s);
    TransferOnlyKeyEmpty(ParseApas(Some(s)), Entries(Matches(s)), k);
  }

  lemma TransferOnlyKeyEmpty(p: Parsed, es: seq<Entry>, k: string)
    requires KeysFrom(p, es) && BucketsFrom(p, es)
    requires exists j :: 0 <= j < |es| && es[j].0 == k
    requires forall j :: 0 <= j < |es| && es[j].0 == k ==> IsTransferGrade(es[j].1.grade)
    ensures k in p.semesters && p.semesters[k] == []
  {
    var b := p.semesters[k];
    assert |b| == 0 || TermEntry(es, k, b[0]);
  }
}
