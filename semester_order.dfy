/** The profile page's ordering of term names: the numeric encoding used to
    sort them, the descending sort of the term keys, the grouping of the sorted
    keys by year and the descending sort of the year keys. */
module SemesterOrder {
  import opened Text
  import opened Academic

  // ---------------------------------------------------------------------------
  // parseInt(x, 10)

  /** The value of a string of decimal digits (the empty string has value 0). */
  function DecimalValue(s: string): nat
    requires AllDigits(s)
    decreases |s|
  {
    if s == [] then 0 else 10 * DecimalValue(s[..|s| - 1]) + DigitValue(s[|s| - 1])
  }

  /** Length of the longest run of digits at the start of `s`. */
  function DigitPrefixLength(s: string): (n: nat)
    ensures n <= |s| && AllDigits(s[..n])
    ensures n < |s| ==> !IsDigit(s[n])
    decreases |s|
  {
    if s != [] && IsDigit(s[0]) then
      var n := 1 + DigitPrefixLength(s[1..]);
      assert forall i :: 1 <= i < n ==> s[..n][i] == s[1..][..n - 1][i - 1];
      n
    else 0
  }

  /** `parseInt(s, 10)`: leading white space is skipped, one sign is
      accepted, then the longest run of digits is read; `None` is NaN. */
  function ParseInt(s: string): Option<int>
  {
    ParseSigned(TrimStart(JsSpace, s))
  }

  function ParseSigned(t: string): Option<int>
  {
    if |t| > 0 && t[0] == '-' then
      match ParseDigits(t[1..])
      case None => None
      case Some(n) => Some(-n)
    else if |t| > 0 && t[0] == '+' then ParseDigits(t[1..])
    else ParseDigits(t)
  }

  function ParseDigits(u: string): Option<int>
  {
    var n := DigitPrefixLength(u);
    if n == 0 then None else Some(DecimalValue(u[..n]))
  }

  lemma {:induction false} DigitPrefixOf(d: string, rest: string)
    requires AllDigits(d) && (rest == [] || !IsDigit(rest[0]))
    ensures DigitPrefixLength(d + rest) == |d|
    decreases |d|
  {
    if d != [] {
      assert (d + rest)[0] == d[0];
      assert (d + rest)[1..] == d[1..] + rest;
      DigitPrefixOf(d[1..], rest);
    } else {
      assert d + rest == rest;
    }
  }

  /** Digits followed by nothing or by anything that is not a digit read as
      those digits. */
  lemma ParseIntDigits(d: string, rest: string)
    requires |d| > 0 && AllDigits(d) && (rest == [] || !IsDigit(rest[0]))
    ensures ParseInt(d + rest) == Some(DecimalValue(d))
  {
    var s := d + rest;
    assert s[0] == d[0];
    assert TrimStart(JsSpace, s) == s;
    assert ParseSigned(s) == ParseDigits(s);
    DigitPrefixOf(d, rest);
    assert s[..|d|] == d;
  }

  // ---------------------------------------------------------------------------
  // getSemesterValue

  const Space := " "

  /** Fall 1, Summer 2, Spring 3, anything else 0. */
  function SeasonRank(season: string): (r: nat)
    ensures r <= 3
  {
    if season == "Fall" then 1
    else if season == "Summer" then 2
    else if season == "Spring" then 3
    else 0
  }

  /** `getSemesterValue`: 10 * year + season rank for "<season> <year>", 0 when
      the name does not split on " " into exactly two parts or the year part
      does not parse. */
  function SemesterValue(semesterName: string): int
  {
    var parts := Split(semesterName, Space);
    if |parts| != 2 then 0
    else
      match ParseInt(parts[1])
      case None => 0
      case Some(year) => year * 10 + SeasonRank(parts[0])
  }

  /** The two parts of a name "<season> <year>" that the encoding accepts. */
  predicate WellFormedName(semesterName: string)
  {
    |Split(semesterName, Space)| == 2 && ParseInt(Split(semesterName, Space)[1]).Some?
  }

  function NameYear(semesterName: string): int
    requires WellFormedName(semesterName)
  {
    ParseInt(Split(semesterName, Space)[1]).value
  }

  function NameSeason(semesterName: string): string
    requires WellFormedName(semesterName)
  {
    Split(semesterName, Space)[0]
  }

  /** A season word without spaces and a digit year give the expected value. */
  lemma SemesterValueOf(season: string, year: string)
    requires !Contains(season, Space)
    requires |year| > 0 && AllDigits(year)
    ensures WellFormedName(season + Space + year)
    ensures NameSeason(season + Space + year) == season
    ensures NameYear(season + Space + year) == DecimalValue(year)
    ensures SemesterValue(season + Space + year) == 10 * DecimalValue(year) + SeasonRank(season)
  {
    var name := season + Space + year;
    var parts := Split(name, Space);
    assert parts == [season, year] by {
      NameParts(season, year);
    }
    assert ParseInt(parts[1]) == Some(DecimalValue(year)) by {
      ParseIntDigits(year, []);
      assert year + [] == year;
    }
  }

  lemma NameParts(season: string, year: string)
    requires !Contains(season, Space) && AllDigits(year)
    ensures Split(season + Space + year, Space) == [season, year]
  {
    SplitCons(season, Space, year);
    NoSpaceIn(year);
    SplitNoSep(year, Space);
  }

  /** Names that fail the format all encode as 0. */
  lemma MalformedNameIsZero(semesterName: string)
    requires !WellFormedName(semesterName)
    ensures SemesterValue(semesterName) == 0
  {
  }

  /** Comparing the encodings of two well-formed names compares the years
      first and, within one year, the season ranks. */
  lemma ValueOrdersYearsThenSeasons(a: string, b: string)
    requires WellFormedName(a) && WellFormedName(b)
    ensures SemesterValue(a) < SemesterValue(b) <==>
      NameYear(a) < NameYear(b)
      || (NameYear(a) == NameYear(b) && SeasonRank(NameSeason(a)) < SeasonRank(NameSeason(b)))
    ensures SemesterValue(a) == SemesterValue(b) <==>
      NameYear(a) == NameYear(b) && SeasonRank(NameSeason(a)) == SeasonRank(NameSeason(b))
  {
    assert SemesterValue(a) == NameYear(a) * 10 + SeasonRank(NameSeason(a));
    assert SemesterValue(b) == NameYear(b) * 10 + SeasonRank(NameSeason(b));
  }

  /** Within a year: Spring above Summer above Fall above any other season word. */
  lemma SeasonsWithinYear(year: string)
    requires |year| > 0 && AllDigits(year)
    ensures SemesterValue("Spring " + year) > SemesterValue("Summer " + year) > SemesterValue("Fall " + year)
    ensures forall other :: !Contains(other, Space) && other != "Spring" && other != "Summer" && other != "Fall"
              ==> SemesterValue(other + Space + year) < SemesterValue("Fall " + year)
  {
    NamedSeasonValue("Spring ", "Spring", year);
    NamedSeasonValue("Summer ", "Summer", year);
    NamedSeasonValue("Fall ", "Fall", year);
    forall other | !Contains(other, Space) && other != "Spring" && other != "Summer" && other != "Fall"
      ensures SemesterValue(other + Space + year) < SemesterValue("Fall " + year)
    {
      OtherSeasonValue(other, year);
    }
  }

  /** The value of "<season> <year>" for one of the three season words. */
  lemma NamedSeasonValue(prefix: string, season: string, year: string)
    requires season == "Spring" || season == "Summer" || season == "Fall"
    requires prefix == season + Space
    requires |year| > 0 && AllDigits(year)
    ensures SemesterValue(prefix + year) == 10 * DecimalValue(year) + SeasonRank(season)
  {
    NoSpaceIn(season);
    SemesterValueOf(season, year);
  }

  /** Any other season word ranks 0. */
  lemma OtherSeasonValue(other: string, year: string)
    requires !Contains(other, Space) && other != "Spring" && other != "Summer" && other != "Fall"
    requires |year| > 0 && AllDigits(year)
    ensures SemesterValue(other + Space + year) == 10 * DecimalValue(year)
  {
    SemesterValueOf(other, year);
  }

  lemma NoSpaceIn(w: string)
    requires forall i :: 0 <= i < |w| ==> w[i] != ' '
    ensures !Contains(w, Space)
  {
    NoCharNotContains(w, ' ');
  }

  // ---------------------------------------------------------------------------
  // Stable descending sort: `arr.sort((a, b) => key(b) - key(a))`

  predicate SortedDesc(s: seq<string>, key: string -> int)
  {
    forall i, j :: 0 <= i < j < |s| ==> key(s[i]) >= key(s[j])
  }

  /** `x` goes after every entry whose key is at least its own. */
  function InsertDesc(x: string, l: seq<string>, key: string -> int): seq<string>
    decreases |l|
  {
    if l == [] || key(x) > key(l[0]) then [x] + l
    else [l[0]] + InsertDesc(x, l[1..], key)
  }

  /** The insertion sort that inserts the entries in their original order. */
  function SortDesc(s: seq<string>, key: string -> int): seq<string>
    decreases |s|
  {
    if s == [] then [] else InsertDesc(s[|s| - 1], SortDesc(s[..|s| - 1], key), key)
  }

  /** The entries of `s` whose key is `v`, in order. */
  function WithKey(s: seq<string>, key: string -> int, v: int): seq<string>
    decreases |s|
  {
    if s == [] then []
    else (if key(s[0]) == v then [s[0]] else []) + WithKey(s[1..], key, v)
  }

  lemma {:induction false} WithKeyAppend(s: seq<string>, x: string, key: string -> int, v: int)
    ensures WithKey(s + [x], key, v) == WithKey(s, key, v) + (if key(x) == v then [x] else [])
    decreases |s|
  {
    if s != [] {
      assert (s + [x])[1..] == s[1..] + [x];
      WithKeyAppend(s[1..], x, key, v);
    }
  }

  lemma WithKeyNone(s: seq<string>, key: string -> int, v: int)
    requires forall i :: 0 <= i < |s| ==> key(s[i]) < v
    ensures WithKey(s, key, v) == []
  {
    if s != [] {
      WithKeyNone(s[1..], key, v);
    }
  }

  lemma {:induction false} InsertDescPermutes(x: string, l: seq<string>, key: string -> int)
    ensures multiset(InsertDesc(x, l, key)) == multiset(l) + multiset{x}
    decreases |l|
  {
    if !(l == [] || key(x) > key(l[0])) {
      InsertDescPermutes(x, l[1..], key);
      assert l == [l[0]] + l[1..];
    }
  }

  lemma {:induction false} InsertDescSorted(x: string, l: seq<string>, key: string -> int)
    requires SortedDesc(l, key)
    ensures SortedDesc(InsertDesc(x, l, key), key)
    decreases |l|
  {
    if !(l == [] || key(x) > key(l[0])) {
      var t := InsertDesc(x, l[1..], key);
      InsertDescSorted(x, l[1..], key);
      InsertDescPermutes(x, l[1..], key);
      HeadBoundsInserted(l, x, t, key);
      ConsSorted(l[0], t, key);
    }
  }

  /** The head of a sorted list bounds every entry of its tail with `x` added,
      when it bounds `x` too. */
  lemma HeadBoundsInserted(l: seq<string>, x: string, t: seq<string>, key: string -> int)
    requires l != [] && SortedDesc(l, key) && key(l[0]) >= key(x)
    requires multiset(t) == multiset(l[1..]) + multiset{x}
    ensures forall j :: 0 <= j < |t| ==> key(l[0]) >= key(t[j])
  {
    forall j | 0 <= j < |t| ensures key(l[0]) >= key(t[j]) {
      assert t[j] in multiset(l[1..]) + multiset{x};
      if t[j] != x {
        var k :| 0 <= k < |l[1..]| && l[1..][k] == t[j];
        assert l[k + 1] == t[j];
      }
    }
  }

  lemma ConsSorted(a: string, t: seq<string>, key: string -> int)
    requires SortedDesc(t, key) && forall j :: 0 <= j < |t| ==> key(a) >= key(t[j])
    ensures SortedDesc([a] + t, key)
  {
    var r := [a] + t;
    forall i, j | 0 <= i < j < |r| ensures key(r[i]) >= key(r[j]) {
      assert r[j] == t[j - 1];
      if i > 0 {
        assert r[i] == t[i - 1];
      }
    }
  }

  lemma {:induction false} InsertDescStable(x: string, l: seq<string>, key: string -> int, v: int)
    requires SortedDesc(l, key)
    ensures WithKey(InsertDesc(x, l, key), key, v) == WithKey(l, key, v) + (if key(x) == v then [x] else [])
    decreases |l|
  {
    var r := InsertDesc(x, l, key);
    if l == [] || key(x) > key(l[0]) {
      assert r[1..] == l;
      if key(x) == v {
        WithKeyNone(l, key, v);
      }
    } else {
      InsertDescStable(x, l[1..], key, v);
      assert r[1..] == InsertDesc(x, l[1..], key);
    }
  }

  /** The sort returns its entries sorted by descending key. */
  lemma {:induction false} SortDescSorted(s: seq<string>, key: string -> int)
    ensures SortedDesc(SortDesc(s, key), key)
    decreases |s|
  {
    if s != [] {
      SortDescSorted(s[..|s| - 1], key);
      InsertDescSorted(s[|s| - 1], SortDesc(s[..|s| - 1], key), key);
    }
  }

  /** The sort returns exactly its entries, each as often as it occurs, and
      entries of equal key keep their original relative order. */
  lemma {:induction false} SortDescPermutesStably(s: seq<string>, key: string -> int)
    ensures multiset(SortDesc(s, key)) == multiset(s)
    ensures forall v :: WithKey(SortDesc(s, key), key, v) == WithKey(s, key, v)
    decreases |s|
  {
    if s != [] {
      var init := s[..|s| - 1];
      var x := s[|s| - 1];
      SortDescPermutesStably(init, key);
      SortDescSorted(init, key);
      InsertDescPermutes(x, SortDesc(init, key), key);
      assert s == init + [x];
      forall v ensures WithKey(SortDesc(s, key), key, v) == WithKey(s, key, v) {
        InsertDescStable(x, SortDesc(init, key), key, v);
        WithKeyAppend(init, x, key, v);
      }
    }
  }

  /** `sortedSemesterKeys`: the term keys, newest term first. */
  function SortedSemesterKeys(keys: seq<string>): seq<string>
  {
    SortDesc(keys, SemesterValue)
  }

  /** In the sorted keys a well-formed name never comes before one of a later
      year, and within one year never before one of a higher season rank. */
  lemma SortedSemesterKeysNewestFirst(keys: seq<string>, i: int, j: int)
    requires 0 <= i < j < |SortedSemesterKeys(keys)|
    requires WellFormedName(SortedSemesterKeys(keys)[i]) && WellFormedName(SortedSemesterKeys(keys)[j])
    ensures NameYear(SortedSemesterKeys(keys)[i]) >= NameYear(SortedSemesterKeys(keys)[j])
    ensures NameYear(SortedSemesterKeys(keys)[i]) == NameYear(SortedSemesterKeys(keys)[j]) ==>
      SeasonRank(NameSeason(SortedSemesterKeys(keys)[i])) >= SeasonRank(NameSeason(SortedSemesterKeys(keys)[j]))
  {
    SortDescSorted(keys, SemesterValue);
    ValueOrdersYearsThenSeasons(SortedSemesterKeys(keys)[i], SortedSemesterKeys(keys)[j]);
  }

  // ---------------------------------------------------------------------------
  // Grouping by year

  /** `semesterName.split(' ')[1]`; a name without a space gives `undefined`,
      which becomes the key "undefined". */
  function YearOf(semesterName: string): string
  {
    var parts := Split(semesterName, Space);
    if |parts| >= 2 then parts[1] else "undefined"
  }

  /** The names of `keys` whose year key is `year`, in order. */
  function InYear(keys: seq<string>, year: string): seq<string>
    decreases |keys|
  {
    if keys == [] then []
    else InYear(keys[..|keys| - 1], year) + (if YearOf(keys[|keys| - 1]) == year then [keys[|keys| - 1]] else [])
  }

  /** The `reduce` that builds `semestersByYear`: one group per year key that
      occurs, each holding that year's names in their sorted order. A year key
      that names an inherited member (such as "constructor") finds a truthy
      non-array in the empty accumulator, so `acc[year].push` throws and the
      page does not render: that is `None`. */
  method GroupByYear(sortedKeys: seq<string>) returns (groups: Option<map<string, seq<string>>>)
    ensures groups.None? <==> exists i :: 0 <= i < |sortedKeys| && YearOf(sortedKeys[i]) in InheritedNames
    ensures groups.Some? ==>
              forall year :: year in groups.value <==> exists i :: 0 <= i < |sortedKeys| && YearOf(sortedKeys[i]) == year
    ensures groups.Some? ==> forall year :: year in groups.value ==> groups.value[year] == InYear(sortedKeys, year)
  {
    var acc: map<string, seq<string>> := map[];
    var i := 0;
    while i < |sortedKeys|
      invariant 0 <= i <= |sortedKeys|
      invariant Grouped(acc, sortedKeys[..i])
      invariant !InheritedYearIn(sortedKeys[..i])
    {
      var semesterName := sortedKeys[i];
      var year := YearOf(semesterName);
      if year in InheritedNames {
        assert YearOf(sortedKeys[i]) in InheritedNames;
        return None;
      }
      InheritedYearStep(sortedKeys, i);
      GroupStep(acc, sortedKeys, i);
      // `if (!acc[year]) acc[year] = []; acc[year].push(semesterName)`
      var group := if year in acc then acc[year] else [];
      acc := acc[year := group + [semesterName]];
      i := i + 1;
    }
    GroupDone(acc, sortedKeys);
    assert sortedKeys[..i] == sortedKeys;
    InheritedYearInAny(sortedKeys);
    groups := Some(acc);
  }

  /** Some name of `keys` has a year key that an empty object inherits. */
  ghost predicate InheritedYearIn(keys: seq<string>)
    decreases |keys|
  {
    keys != [] && (InheritedYearIn(keys[..|keys| - 1]) || YearOf(keys[|keys| - 1]) in InheritedNames)
  }

  lemma InheritedYearStep(keys: seq<string>, i: int)
    requires 0 <= i < |keys| && !InheritedYearIn(keys[..i]) && YearOf(keys[i]) !in InheritedNames
    ensures !InheritedYearIn(keys[..i + 1])
  {
    assert keys[..i + 1][..i] == keys[..i];
  }

  lemma {:induction false} InheritedYearInAny(keys: seq<string>)
    ensures InheritedYearIn(keys) <==> exists i :: 0 <= i < |keys| && YearOf(keys[i]) in InheritedNames
    decreases |keys|
  {
    if keys != [] {
      var init := keys[..|keys| - 1];
      InheritedYearInAny(init);
      assert forall i :: 0 <= i < |init| ==> init[i] == keys[i];
    }
  }

  /** The groups are the non-empty filters of `keys` by year key. */
  ghost predicate Grouped(acc: map<string, seq<string>>, keys: seq<string>)
  {
    && (forall year :: year in acc <==> InYear(keys, year) != [])
    && (forall year :: year in acc ==> acc[year] == InYear(keys, year))
  }

  /** Filing the next name in its year's group keeps the groups equal to the
      filter over the names seen so far. */
  lemma GroupStep(acc: map<string, seq<string>>, keys: seq<string>, i: int)
    requires 0 <= i < |keys| && Grouped(acc, keys[..i])
    ensures var y := YearOf(keys[i]);
            Grouped(acc[y := (if y in acc then acc[y] else []) + [keys[i]]], keys[..i + 1])
  {
    InYearStep(keys, i);
  }

  lemma InYearStep(keys: seq<string>, i: int)
    requires 0 <= i < |keys|
    ensures forall year :: InYear(keys[..i + 1], year) ==
              InYear(keys[..i], year) + (if YearOf(keys[i]) == year then [keys[i]] else [])
  {
    assert keys[..i + 1][..i] == keys[..i];
  }

  /** After the last name the groups are the filters over all the names. */
  lemma GroupDone(acc: map<string, seq<string>>, keys: seq<string>)
    requires Grouped(acc, keys[..|keys|])
    ensures forall year :: year in acc <==> exists i :: 0 <= i < |keys| && YearOf(keys[i]) == year
    ensures forall year :: year in acc ==> acc[year] == InYear(keys, year)
  {
    assert keys[..|keys|] == keys;
    forall year ensures year in acc <==> exists i :: 0 <= i < |keys| && YearOf(keys[i]) == year {
      InYearMembers(keys, year);
    }
  }

  /** A name is in a year's group exactly when it is one of the keys and that
      is its year key, so every key lands in exactly one group. */
  lemma {:induction false} InYearMembers(keys: seq<string>, year: string)
    ensures forall x :: x in InYear(keys, year) <==> x in keys && YearOf(x) == year
    ensures InYear(keys, year) == [] <==> forall i :: 0 <= i < |keys| ==> YearOf(keys[i]) != year
    decreases |keys|
  {
    if keys != [] {
      InYearMembers(keys[..|keys| - 1], year);
      assert keys == keys[..|keys| - 1] + [keys[|keys| - 1]];
    }
  }

  /** A group of the sorted keys is itself sorted. */
  lemma {:induction false} InYearSorted(keys: seq<string>, year: string, key: string -> int)
    requires SortedDesc(keys, key)
    ensures SortedDesc(InYear(keys, year), key)
    decreases |keys|
  {
    if keys != [] {
      var init := keys[..|keys| - 1];
      var x := keys[|keys| - 1];
      assert SortedDesc(init, key);
      InYearSorted(init, year, key);
      InYearMembers(init, year);
      var g := InYear(keys, year);
      forall i, j | 0 <= i < j < |g| ensures key(g[i]) >= key(g[j]) {
        if j == |InYear(init, year)| {
          assert g[i] in init;
        }
      }
    }
  }

  // ---------------------------------------------------------------------------
  // Sorting the year keys

  /** `Number(y)` for a string of digits. */
  function YearNumber(y: string): int
  {
    if AllDigits(y) then DecimalValue(y) else 0
  }

  /** `sortedYears`: the year keys, largest number first. With fewer than two
      keys `sort` never calls the comparator and the keys come back as they
      are (a profile whose names are all malformed has the one key
      "undefined"). With more, the model covers keys that are all digit
      strings, where `b - a` compares their decimal values; for any other mix
      it is `None`. */
  function SortedYears(years: seq<string>): (r: Option<seq<string>>)
    ensures r.Some? <==> |years| <= 1 || forall i :: 0 <= i < |years| ==> AllDigits(years[i])
    ensures |years| <= 1 ==> r == Some(years)
    ensures r.Some? ==> SortedDesc(r.value, YearNumber) && multiset(r.value) == multiset(years)
  {
    if |years| <= 1 then Some(years)
    else if forall i :: 0 <= i < |years| ==> AllDigits(years[i]) then
      SortDescSorted(years, YearNumber);
      SortDescPermutesStably(years, YearNumber);
      Some(SortDesc(years, YearNumber))
    else None
  }
}
