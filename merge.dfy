/** The profile update handler's merge of a parsed transcript into the
    submitted profile data, and the pruning of empty term buckets that
    follows it whether or not a transcript was uploaded. */
module Merge {
  import opened Text
  import opened Academic
  import opened Transcript

  /** The part of the submitted profile data the handler rewrites. A missing
      `semesters` object behaves like an empty one under both the spread and
      the `for...in` loop, so it is the empty map here; a missing
      `transferCourses` is `None`. */
  datatype ProfileData = ProfileData(semesters: Semesters, transferCourses: Option<seq<Course>>)

  function OrEmpty(l: Option<seq<Course>>): seq<Course>
  {
    if l.Some? then l.value else []
  }

  // ---------------------------------------------------------------------------
  // Transfer courses: the submitted list, then each parsed course whose code
  // is not yet in the combined list

  function MergedTransfers(existing: seq<Course>, parsed: seq<Course>): seq<Course>
    decreases |parsed|
  {
    if parsed == [] then existing
    else
      var acc := MergedTransfers(existing, parsed[..|parsed| - 1]);
      var c := parsed[|parsed| - 1];
      if HasCode(acc, c.course) then acc else acc + [c]
  }

  /** The `forEach` over the parsed transfer courses. */
  method MergeTransfers(existing: seq<Course>, parsed: seq<Course>) returns (combined: seq<Course>)
    ensures combined == MergedTransfers(existing, parsed)
  {
    combined := existing;
    var i := 0;
    while i < |parsed|
      invariant 0 <= i <= |parsed|
      invariant combined == MergedTransfers(existing, parsed[..i])
    {
      var newCourse := parsed[i];
      assert parsed[..i + 1][..i] == parsed[..i];
      if !HasCode(combined, newCourse.course) {
        combined := combined + [newCourse];
      }
      i := i + 1;
    }
    assert parsed[..|parsed|] == parsed;
  }

  /** The submitted list survives as a prefix; every later entry is a parsed
      course whose code the submitted list lacks; no two later entries share a
      code; every parsed code ends up in the list. */
  lemma {:induction false} MergedTransfersShape(existing: seq<Course>, parsed: seq<Course>)
    ensures |existing| <= |MergedTransfers(existing, parsed)|
    ensures MergedTransfers(existing, parsed)[..|existing|] == existing
    ensures forall i :: |existing| <= i < |MergedTransfers(existing, parsed)| ==>
              MergedTransfers(existing, parsed)[i] in parsed
              && !HasCode(existing, MergedTransfers(existing, parsed)[i].course)
    ensures forall i, j :: |existing| <= i < j < |MergedTransfers(existing, parsed)| ==>
              MergedTransfers(existing, parsed)[i].course != MergedTransfers(existing, parsed)[j].course
    ensures forall j :: 0 <= j < |parsed| ==> HasCode(MergedTransfers(existing, parsed), parsed[j].course)
    decreases |parsed|
  {
    if parsed != [] {
      var init := parsed[..|parsed| - 1];
      var c := parsed[|parsed| - 1];
      MergedTransfersShape(existing, init);
      var acc := MergedTransfers(existing, init);
      assert parsed == init + [c];
      if HasCode(acc, c.course) {
        assert MergedTransfers(existing, parsed) == acc;
        CoversStep(acc, acc, init, c);
      } else {
        assert MergedTransfers(existing, parsed) == acc + [c];
        AppendFresh(existing, init, acc, c);
        CoversStep(acc, acc + [c], init, c);
      }
    }
  }

  /** Appending a course whose code the list lacks keeps the submitted prefix,
      the origin of the later entries and their distinct codes. */
  lemma AppendFresh(existing: seq<Course>, init: seq<Course>, acc: seq<Course>, c: Course)
    requires |existing| <= |acc| && acc[..|existing|] == existing
    requires forall i :: |existing| <= i < |acc| ==> acc[i] in init && !HasCode(existing, acc[i].course)
    requires forall i, j :: |existing| <= i < j < |acc| ==> acc[i].course != acc[j].course
    requires !HasCode(acc, c.course)
    ensures (acc + [c])[..|existing|] == existing
    ensures forall i :: |existing| <= i < |acc + [c]| ==>
              (acc + [c])[i] in init + [c] && !HasCode(existing, (acc + [c])[i].course)
    ensures forall i, j :: |existing| <= i < j < |acc + [c]| ==> (acc + [c])[i].course != (acc + [c])[j].course
  {
    var r := acc + [c];
    assert r[..|existing|] == acc[..|existing|];
    forall i | |existing| <= i < |r|
      ensures r[i] in init + [c] && !HasCode(existing, r[i].course)
    {
      if i < |acc| {
        assert r[i] == acc[i];
      } else {
        assert r[i] == c;
        forall k | 0 <= k < |existing|
          ensures existing[k].course != c.course
        {
          assert acc[k] == existing[k];
        }
      }
    }
    forall i, j | |existing| <= i < j < |r|
      ensures r[i].course != r[j].course
    {
      assert r[i] == acc[i];
      if j < |acc| {
        assert r[j] == acc[j];
      }
    }
  }

  /** After one more step every parsed code so far is in the list. */
  lemma CoversStep(acc: seq<Course>, r: seq<Course>, init: seq<Course>, c: Course)
    requires r == acc || r == acc + [c]
    requires r == acc ==> HasCode(acc, c.course)
    requires forall j :: 0 <= j < |init| ==> HasCode(acc, init[j].course)
    ensures forall j :: 0 <= j < |init + [c]| ==> HasCode(r, (init + [c])[j].course)
  {
    forall j | 0 <= j < |init + [c]|
      ensures HasCode(r, (init + [c])[j].course)
    {
      if j < |init| {
        assert (init + [c])[j] == init[j];
        var i :| 0 <= i < |acc| && acc[i].course == init[j].course;
        assert r[i] == acc[i];
      } else if r != acc {
        assert r[|acc|] == c;
      }
    }
  }

  /** A list that already holds every parsed code is left as it is. */
  lemma {:induction false} MergedTransfersNoop(existing: seq<Course>, parsed: seq<Course>)
    requires forall j :: 0 <= j < |parsed| ==> HasCode(existing, parsed[j].course)
    ensures MergedTransfers(existing, parsed) == existing
    decreases |parsed|
  {
    if parsed != [] {
      MergedTransfersNoop(existing, parsed[..|parsed| - 1]);
      assert HasCode(existing, parsed[|parsed| - 1].course);
    }
  }

  /** Merging the same parsed list a second time adds nothing. */
  lemma MergedTransfersIdempotent(existing: seq<Course>, parsed: seq<Course>)
    ensures MergedTransfers(MergedTransfers(existing, parsed), parsed) == MergedTransfers(existing, parsed)
  {
    MergedTransfersShape(existing, parsed);
    MergedTransfersNoop(MergedTransfers(existing, parsed), parsed);
  }

  /** A submitted list without two entries of the same code keeps that property. */
  lemma MergedTransfersUniqueCodes(existing: seq<Course>, parsed: seq<Course>)
    requires UniqueCodes(existing)
    ensures UniqueCodes(MergedTransfers(existing, parsed))
  {
    MergedTransfersShape(existing, parsed);
    var r := MergedTransfers(existing, parsed);
    forall i, j | 0 <= i < j < |r| ensures r[i].course != r[j].course {
      if i < |existing| && j >= |existing| {
        assert r[i] == existing[i];
        assert !HasCode(existing, r[j].course);
      } else if j < |existing| {
        assert r[i] == existing[i] && r[j] == existing[j];
      }
    }
  }

  // ---------------------------------------------------------------------------
  // Pruning

  /** The buckets whose course list is not empty. */
  function Pruned(semesters: Semesters): Semesters
  {
    map k | k in semesters && semesters[k] != [] :: semesters[k]
  }

  /** The `for...in` loop that builds `filteredSemesters`. */
  method PruneEmptySemesters(semesters: Semesters) returns (filtered: Semesters)
    ensures forall k :: k in filtered <==> k in semesters && semesters[k] != []
    ensures forall k :: k in filtered ==> filtered[k] == semesters[k]
    ensures filtered == Pruned(semesters)
  {
    filtered := map[];
    var todo := semesters.Keys;
    while todo != {}
      invariant todo <= semesters.Keys
      invariant forall k :: k in filtered <==> k in semesters && k !in todo && semesters[k] != []
      invariant forall k :: k in filtered ==> filtered[k] == semesters[k]
      decreases todo
    {
      var semesterName :| semesterName in todo;
      if semesters[semesterName] != [] {
        filtered := filtered[semesterName := semesters[semesterName]];
      }
      todo := todo - {semesterName};
    }
  }

  // ---------------------------------------------------------------------------
  // The whole update

  /** The handler's new profile data; `parsed` is the parsed transcript when
      one was uploaded. */
  function PutResult(profile: ProfileData, parsed: Option<Parsed>): ProfileData
  {
    var merged :=
      if parsed.None? then profile
      else ProfileData(profile.semesters + parsed.value.semesters,
                       Some(MergedTransfers(OrEmpty(profile.transferCourses), parsed.value.transferCourses)));
    ProfileData(Pruned(merged.semesters), merged.transferCourses)
  }

  method HandlePut(profile: ProfileData, parsed: Option<Parsed>) returns (profileData: ProfileData)
    ensures profileData == PutResult(profile, parsed)
  {
    profileData := profile;
    if parsed.Some? {
      var parsedSemesters := parsed.value.semesters;
      var parsedTransferCourses := parsed.value.transferCourses;
      profileData := profileData.(semesters := profileData.semesters + parsedSemesters);
      var existingTransferCourses := OrEmpty(profileData.transferCourses);
      var combinedTransferCourses := MergeTransfers(existingTransferCourses, parsedTransferCourses);
      profileData := profileData.(transferCourses := Some(combinedTransferCourses));
    }
    var filteredSemesters := PruneEmptySemesters(profileData.semesters);
    profileData := profileData.(semesters := filteredSemesters);
  }

  /** Term buckets after the update: a non-empty parsed bucket replaces the
      submitted bucket of that name wholesale, a submitted bucket the parse
      does not name stays as it was when non-empty, and nothing else remains. */
  lemma PutBuckets(profile: ProfileData, parsed: Parsed, k: string)
    ensures var r := PutResult(profile, Some(parsed)).semesters;
      && (k in parsed.semesters ==>
            (k in r <==> parsed.semesters[k] != []) && (k in r ==> r[k] == parsed.semesters[k]))
      && (k !in parsed.semesters ==>
            (k in r <==> k in profile.semesters && profile.semesters[k] != [])
            && (k in r ==> r[k] == profile.semesters[k]))
  {
  }

  /** Without an upload only the pruning happens. */
  lemma PutWithoutTranscript(profile: ProfileData)
    ensures PutResult(profile, None).transferCourses == profile.transferCourses
    ensures forall k :: k in PutResult(profile, None).semesters <==>
              k in profile.semesters && profile.semesters[k] != []
    ensures forall k :: k in PutResult(profile, None).semesters ==>
              PutResult(profile, None).semesters[k] == profile.semesters[k]
  {
  }

  /** Transfer courses after an upload: the submitted list is a prefix, and
      each parsed course is present by its code. */
  lemma PutTransfers(profile: ProfileData, parsed: Parsed)
    ensures var r := OrEmpty(PutResult(profile, Some(parsed)).transferCourses);
      && |OrEmpty(profile.transferCourses)| <= |r|
      && r[..|OrEmpty(profile.transferCourses)|] == OrEmpty(profile.transferCourses)
      && (forall j :: 0 <= j < |parsed.transferCourses| ==> HasCode(r, parsed.transferCourses[j].course))
      && (UniqueCodes(OrEmpty(profile.transferCourses)) ==> UniqueCodes(r))
  {
    MergedTransfersShape(OrEmpty(profile.transferCourses), parsed.transferCourses);
    if UniqueCodes(OrEmpty(profile.transferCourses)) {
      MergedTransfersUniqueCodes(OrEmpty(profile.transferCourses), parsed.transferCourses);
    }
  }

  /** No empty bucket is stored. */
  lemma PutLeavesNoEmptyBucket(profile: ProfileData, parsed: Option<Parsed>)
    ensures forall k :: k in PutResult(profile, parsed).semesters ==> PutResult(profile, parsed).semesters[k] != []
  {
  }

  /** Submitting the stored result again with the same upload changes nothing. */
  lemma PutIdempotent(profile: ProfileData, parsed: Option<Parsed>)
    ensures PutResult(PutResult(profile, parsed), parsed) == PutResult(profile, parsed)
  {
    var once := PutResult(profile, parsed);
    var twice := PutResult(once, parsed);
    if parsed.Some? {
      MergedTransfersIdempotent(OrEmpty(profile.transferCourses), parsed.value.transferCourses);
    }
    assert twice.semesters == once.semesters;
  }
}
