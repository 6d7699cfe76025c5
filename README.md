# GopherGrades profile core in Dafny

This project models, and proves properties of, the parts of GopherGrades that
build a student's academic history and the parts that clean up generated
professor summaries:

- Transcript import in the profile API (`frontend/pages/api/user/profile.js`).
  `convertTerm` turns a term code such as `F24` into `Fall 2024`.
  `parseApasText` scans the text of a degree audit with one multi-line regular
  expression. It files every matched course under its term, or under the
  transfer list when the grade starts with `T` or `N`. It drops duplicate
  (course, grade) pairs.
- The `PUT` handler's merge. Parsed terms overwrite existing ones. Parsed
  transfer courses are appended when their course code is new. Terms left
  without courses are pruned.
- The profile page (`frontend/pages/profile/index.jsx`). `getSemesterValue`
  ranks term names. The page sorts the term keys newest first, groups them by
  year and sorts the years. It turns the comma-separated "current courses"
  field into a list. Its handlers add and delete terms, add and remove courses
  and transfer courses, and add and remove items of the tag lists.
- The course form (`frontend/components/AddCourseForm.jsx`). It offers the
  fixed grade list. `handleAddClick` splits the option label that the course
  search endpoint (`frontend/pages/api/courses/search.js`) builds.
- The summary scripts (`data-app/professor_reviews/*.py`).
  `extract_clean_summary` is the same in all four scripts. The log and
  multi-threaded scripts share the cleanup and fallbacks of
  `create_final_holistic_summary`. The newest script has the key check of
  `create_final_summary_and_tags`.

## Module layout

| file | module | what it holds |
|---|---|---|
| text.dfy | `Text` | characters, JavaScript `trim` and Python `strip`, `split`/`join`, substring search, `replace` of all occurrences |
| academic.dfy | `Academic` | the course record and the duplicate checks on course lists |
| term.dfy | `Term` | `convertTerm` |
| grammar.dfy | `Grammar` | the transcript regular expression as a matcher with backtracking-engine semantics, and the `exec` search |
| transcript.dfy | `Transcript` | course-code cleaning, the course record, and `parseApasText` as an imperative scan proved against a fold |
| transcript_facts.dfy | `TranscriptFacts` | what a parsed transcript holds, described from the matches |
| merge.dfy | `Merge` | the `PUT` merge and prune |
| semester_order.dfy | `SemesterOrder` | `getSemesterValue`, the sorts and the grouping by year |
| profile_editor.dfy | `ProfileEditor` | the page handlers as classes over the page state, and the current-courses field |
| add_course_form.dfy | `AddCourseForm` | grade options, label splitting, and the form as a class |
| summary.dfy | `Summary` | the Python post-processing |

## Model

| member | source | states |
|---|---|---|
| Term.ConvertTerm | frontend/pages/api/user/profile.js:16-34 | A missing, non-string or empty code gives `Unknown Term`. A code whose space-free form lacks leading capitals or two trailing digits comes back unchanged. Otherwise the result is a term name (a season label, a space, `20` and two digits) ending in the code's last two digits. |
| Term.SeasonNameIsLabel | frontend/pages/api/user/profile.js:28-33 | (helper) Every one- or two-capital season code maps to a season label: `Fall`, `Spring`, `Summer`, or the code itself. |
| Term.TermNameShape | frontend/pages/api/user/profile.js:26-33 | A season label followed by ` 20` and two digits is a term name whose last two characters are those digits. |
| Term.GrammarTermConverted | frontend/pages/api/user/profile.js:18-33 | A term group of the transcript pattern (capitals, at most one space, two digits) converts to its season name, ` 20` and its digits. |
| Term.TermTokenSpacesRemoved | frontend/pages/api/user/profile.js:18 | Removing whitespace from letters, whitespace and digits leaves the letters followed by the digits. |
| Grammar.LineEnd | frontend/pages/api/user/profile.js:43 | `.*` stops at a line terminator or at the end of the text. |
| Grammar.LineEndNoTerminator | frontend/pages/api/user/profile.js:43 | What `.*` takes holds no line terminator, so it stops at the first one. |
| Grammar.GradeLength | frontend/pages/api/user/profile.js:43 | The grade alternative chosen is at least one character long and lies inside the text. |
| Grammar.GradeLengthSound | frontend/pages/api/user/profile.js:43 | The grade alternative chosen spells a grade token. |
| Grammar.GradeLengthComplete | frontend/pages/api/user/profile.js:43 | Whenever some grade token starts at a position, the grade alternation matches there. |
| Grammar.GradeAtSound | frontend/pages/api/user/profile.js:43 | Given term, course and credit groups, a grade match yields a well-formed match at a line start. |
| Grammar.CreditAtSound | frontend/pages/api/user/profile.js:43 | Given term and course groups, a credit-and-grade match is well formed. |
| Grammar.CourseWithSound | frontend/pages/api/user/profile.js:43 | Each fixed split of the course group (letters, digits, optional suffix) yields only well-formed matches. |
| Grammar.CourseGroupShape | frontend/pages/api/user/profile.js:43 | A course group with a given split is exactly `1`, then 2-4 capitals, then 3-4 digits, then at most one capital. |
| Grammar.CourseAtSound | frontend/pages/api/user/profile.js:43 | The backtracking search over the course group yields only well-formed matches. |
| Grammar.TermWithSound | frontend/pages/api/user/profile.js:43 | Each split of the term group yields only well-formed matches. |
| Grammar.TermCourseSound | frontend/pages/api/user/profile.js:43 | After a term group, the rest of the pattern yields only well-formed matches. |
| Grammar.TermGroupShape | frontend/pages/api/user/profile.js:43 | A term group with a given split is exactly 1-2 capitals, at most one whitespace and two digits. |
| Grammar.MatchAtSound | frontend/pages/api/user/profile.js:43 | Any match found at a position begins at a line start and its five groups have the pattern's shapes. The title runs to the line end. |
| Grammar.CreditAtComplete | frontend/pages/api/user/profile.js:43 | When credit and grade tokens follow, the credit step succeeds. |
| Grammar.CourseWithComplete | frontend/pages/api/user/profile.js:43 | When the course group splits this way and the rest matches, that split succeeds. |
| Grammar.CourseDigitsComplete | frontend/pages/api/user/profile.js:43 | A successful split with a suffix choice makes the digit-count step succeed. |
| Grammar.CourseLettersComplete | frontend/pages/api/user/profile.js:43 | A successful digit count makes the letter-count step succeed. |
| Grammar.CourseAtSome | frontend/pages/api/user/profile.js:43 | A successful letter count makes the course step succeed. |
| Grammar.CourseAtComplete | frontend/pages/api/user/profile.js:43 | Course, credit and grade tokens in sequence make the course step succeed. |
| Grammar.MatchAtComplete | frontend/pages/api/user/profile.js:43 | Term, course, credit and grade tokens in sequence at a line start make the pattern match there. |
| Grammar.TermWithComplete | frontend/pages/api/user/profile.js:43 | A term split followed by a successful course step succeeds. |
| Grammar.MatchAtSome | frontend/pages/api/user/profile.js:43 | A successful term split at a line start makes the pattern match. |
| Grammar.FindFrom | frontend/pages/api/user/profile.js:46 | `exec` from `lastIndex` returns the first position from there at which the pattern matches. No match means no position from there matches. |
| Grammar.FindFromFound | frontend/pages/api/user/profile.js:46 | The match `exec` returns is the pattern's match at its own index and is well formed. |
| Grammar.MatchesOrdered | frontend/pages/api/user/profile.js:45-49 | The successive matches of the global search are well formed, start at or after the first `lastIndex` and do not overlap. |
| Grammar.MatchesComplete | frontend/pages/api/user/profile.js:45-49 | Every position where the pattern matches lies within one of the matches the search returns. |
| Grammar.CourseAtNeedsOne | frontend/pages/api/user/profile.js:43 | A course group must start with `1`. |
| Grammar.ExampleLineMatches | frontend/pages/api/user/profile.js:43 | The line `F241CSCI30813.0BExcellent Course` matches. |
| Grammar.ExampleTerm | frontend/pages/api/user/profile.js:43 | Its first three characters `F24` form a term group. |
| Grammar.ExampleCourse | frontend/pages/api/user/profile.js:43 | `1CSCI3081` forms a course group. |
| Grammar.ExampleCreditGrade | frontend/pages/api/user/profile.js:43 | `3.0` is a credit group and `B` a grade group. |
| Grammar.SpacedLineDoesNotMatch | frontend/pages/api/user/profile.js:43 | `F24 1CSCI30813.0B…`, with a space between term and course, does not match. |
| Grammar.SpacedLineTwoLetters | frontend/pages/api/user/profile.js:43 | No two-letter term split matches that line. |
| Grammar.SpacedLineOneLetter | frontend/pages/api/user/profile.js:43 | No one-letter term split matches that line. |
| Transcript.LeadingUpper | frontend/pages/api/user/profile.js:58 | `^[A-Z]+` takes the whole run of leading capitals. |
| Transcript.TrailingUpperRun | frontend/pages/api/user/profile.js:59 | The trailing `[A-Z]*` takes the whole run of trailing capitals. |
| Transcript.TrailingDigitsRun | frontend/pages/api/user/profile.js:59 | `\d+` before those capitals takes the whole run of digits there. |
| Transcript.TrailingUpperExact | frontend/pages/api/user/profile.js:59 | Any maximal trailing run of capitals is the one computed. |
| Transcript.TrailingDigitsExact | frontend/pages/api/user/profile.js:59 | Any maximal trailing run of digits is the one computed. |
| Transcript.NumSuffixShape | frontend/pages/api/user/profile.js:59 | `\d+[A-Z]*$` gives a suffix: at least one digit, then only capitals. It is preceded by a non-digit or the start. |
| Transcript.NumSuffixNone | frontend/pages/api/user/profile.js:59 | There is no match exactly when no digit precedes the trailing capitals. |
| Transcript.CleanCourse | frontend/pages/api/user/profile.js:57-64 | The cleaned code is the code without its first character. When both parts are found, it is the leading capitals, a space and the number suffix. |
| Transcript.CleanCourseToken | frontend/pages/api/user/profile.js:57-64 | For a course group `1`+letters+rest, cleaning gives `letters rest`. Example: `1CSCI3081W` becomes `CSCI 3081W`. |
| Transcript.CleanCourseInjective | frontend/pages/api/user/profile.js:57-64 | Two course groups with the same cleaned code are equal. |
| Transcript.CreditTenths | frontend/pages/api/user/profile.js:68 | `parseFloat` of a `d.d` credit, as tenths: the units digit times ten plus the tenths digit. |
| Transcript.FileCourse | frontend/pages/api/user/profile.js:77-93 | Filing a course creates its term's bucket if absent. A `T`/`N` grade goes to the transfer list unless the pair is already there. Any other grade goes to the term's bucket unless the pair is already there. The new state is the specification `Insert`. |
| Transcript.ParseApasText | frontend/pages/api/user/profile.js:36-100 | The parse equals the specification: empty for non-string or blank text, else the fold of filing over all matches. |
| Transcript.ScanMatches | frontend/pages/api/user/profile.js:41-99 | The `exec` loop with `lastIndex` files exactly the matches of the global search, in order. |
| Transcript.ScanAdvance | frontend/pages/api/user/profile.js:46-49 | One `exec` step moves `lastIndex` to the match end past it. The matches seen so far stay a prefix of all matches, and the fold grows by one filing. |
| Transcript.ScanDone | frontend/pages/api/user/profile.js:46 | When `exec` finds nothing more, the matches seen are all the matches. |
| Transcript.MatchesFromFound | frontend/pages/api/user/profile.js:46 | The search from a position is the found match followed by the search from its end. |
| Transcript.ParseFoldSnoc | frontend/pages/api/user/profile.js:46-93 | The fold of the matches plus one more is one more filing. |
| TranscriptFacts.EntriesAt | frontend/pages/api/user/profile.js:66-73 | One (term name, course) entry per match, in match order. |
| TranscriptFacts.ParseFoldEntries | frontend/pages/api/user/profile.js:46-93 | Folding over matches is folding over their entries. |
| TranscriptFacts.InsertKeys | frontend/pages/api/user/profile.js:77-79 | Filing keeps "the bucket keys are exactly the term names seen". |
| TranscriptFacts.InsertTransfers | frontend/pages/api/user/profile.js:81-84 | Filing keeps "the transfer list holds, once each, exactly the transfer-grade pairs seen". |
| TranscriptFacts.InsertBucket | frontend/pages/api/user/profile.js:77-93 | Filing adds the term key, leaves other buckets alone, and either keeps the term's bucket or appends the course when its grade is not a transfer grade and its pair is new. |
| TranscriptFacts.InsertBuckets | frontend/pages/api/user/profile.js:86-92 | Filing keeps "each bucket holds, once each, exactly the non-transfer pairs seen under that term". |
| TranscriptFacts.InsertBucketsUnique | frontend/pages/api/user/profile.js:90 | Filing keeps every bucket free of duplicate pairs. |
| TranscriptFacts.InsertBucketsSound | frontend/pages/api/user/profile.js:86-92 | Filing keeps every bucket entry a non-transfer entry seen under its term. |
| TranscriptFacts.InsertBucketsComplete | frontend/pages/api/user/profile.js:86-92 | Filing keeps every non-transfer entry seen in its term's bucket. |
| TranscriptFacts.FoldDescribed | frontend/pages/api/user/profile.js:46-93 | After any sequence of entries, the keys, transfer list and buckets are exactly those described by the entries. |
| TranscriptFacts.DescribedStep | frontend/pages/api/user/profile.js:46-93 | The description carries over from a prefix of entries to one more entry. |
| TranscriptFacts.ParseApasDescribed | frontend/pages/api/user/profile.js:36-100 | The parse of any text has those keys, that transfer list and those buckets for the text's matches. |
| TranscriptFacts.MatchNeedsCapital | frontend/pages/api/user/profile.js:43 | No match starts at the end or at a non-capital. |
| TranscriptFacts.TermNeedsCapital | frontend/pages/api/user/profile.js:43 | No term split succeeds at the end or at a non-capital. |
| TranscriptFacts.BlankGuardRedundant | frontend/pages/api/user/profile.js:37-40 | For string input the blank-text guard changes nothing: blank text has no matches anyway. |
| TranscriptFacts.ParsedKeysAreTermNames | frontend/pages/api/user/profile.js:73-79 | Every bucket key of a parse is a converted term name. |
| TranscriptFacts.TermNameIsDisplayName | frontend/pages/api/user/profile.js:73 | Converting any term group gives a term name. |
| TranscriptFacts.TermNameNotInherited | frontend/pages/api/user/profile.js:77-79 | No term name is a member name every object inherits, so `!semesters[semesterName]` is true exactly when the key is absent. |
| TranscriptFacts.TransferOnlyTermIsEmpty | frontend/pages/api/user/profile.js:77-84 | A term whose courses all have transfer grades still appears, with an empty bucket. |
| TranscriptFacts.TransferOnlyKeyEmpty | frontend/pages/api/user/profile.js:77-84 | The same stated over any accumulator that fits the description. |
| Academic.AppendNewPair | frontend/pages/api/user/profile.js:82-83 | Appending a course whose (course, grade) pair is new keeps the pairs unique. |
| Academic.AppendNewCode | frontend/pages/api/user/profile.js:201-202 | Appending a course whose code is new keeps the codes unique. |
| Merge.MergeTransfers | frontend/pages/api/user/profile.js:198-205 | The loop's result equals the merge function. |
| Merge.MergedTransfersShape | frontend/pages/api/user/profile.js:198-205 | The merge keeps the existing transfers as a prefix. Each course after them is parsed, has a code new to the existing list, and has a code distinct from the others added. Every parsed code ends up present. |
| Merge.MergedTransfersNoop | frontend/pages/api/user/profile.js:200-204 | When every parsed code is already present, nothing changes. |
| Merge.MergedTransfersIdempotent | frontend/pages/api/user/profile.js:198-205 | Merging the same parsed list twice is merging it once. |
| Merge.MergedTransfersUniqueCodes | frontend/pages/api/user/profile.js:198-205 | Merging keeps the course codes unique. |
| Merge.PruneEmptySemesters | frontend/pages/api/user/profile.js:208-215 | The kept terms are exactly those with a non-empty list, with their lists unchanged. |
| Merge.HandlePut | frontend/pages/api/user/profile.js:188-215 | The handler's profile equals the specification `PutResult`. |
| Merge.PutBuckets | frontend/pages/api/user/profile.js:196-215 | A parsed term overrides the submitted one and is kept iff its list is non-empty. Any other term is kept iff submitted with a non-empty list. |
| Merge.PutWithoutTranscript | frontend/pages/api/user/profile.js:188-215 | With no upload the transfers are untouched and only empty terms are dropped. |
| Merge.PutTransfers | frontend/pages/api/user/profile.js:198-205 | With an upload, the existing transfers stay a prefix and every parsed code is present. Unique codes stay unique. |
| Merge.PutLeavesNoEmptyBucket | frontend/pages/api/user/profile.js:208-215 | No saved term has an empty course list. |
| Merge.PutIdempotent | frontend/pages/api/user/profile.js:188-215 | Submitting the result again with the same upload gives the same profile. |
| SemesterOrder.DigitPrefixLength | frontend/pages/profile/index.jsx:66 | `parseInt` reads the longest digit prefix. |
| SemesterOrder.DigitPrefixOf | frontend/pages/profile/index.jsx:66 | Digits followed by a non-digit give exactly that prefix. |
| SemesterOrder.ParseIntDigits | frontend/pages/profile/index.jsx:66 | `parseInt` of digits followed by a non-digit is their decimal value. |
| SemesterOrder.SeasonRank | frontend/pages/profile/index.jsx:70-73 | (helper) Season ranks lie in 0..3. |
| SemesterOrder.SemesterValueOf | frontend/pages/profile/index.jsx:61-77 | For `season year`, the name is well formed with that season and year, and its value is ten times the year plus the season's rank. |
| SemesterOrder.NameParts | frontend/pages/profile/index.jsx:62 | A space-free season and a digit year split into exactly those two parts. |
| SemesterOrder.MalformedNameIsZero | frontend/pages/profile/index.jsx:62-68 | A name with other than two parts, or a year that does not parse, has value 0. |
| SemesterOrder.ValueOrdersYearsThenSeasons | frontend/pages/profile/index.jsx:61-77 | For well-formed names, value order is year first, then season rank. Equal values mean equal years and ranks. |
| SemesterOrder.SeasonsWithinYear | frontend/pages/profile/index.jsx:70-76 | Within a year Spring > Summer > Fall > any other season. |
| SemesterOrder.NamedSeasonValue | frontend/pages/profile/index.jsx:70-76 | A listed season's value is ten times the year plus its rank. |
| SemesterOrder.OtherSeasonValue | frontend/pages/profile/index.jsx:70-76 | An unlisted season's value is ten times the year. |
| SemesterOrder.InsertDescPermutes | frontend/pages/profile/index.jsx:124 | Inserting into the sorted list adds exactly the one element. |
| SemesterOrder.InsertDescSorted | frontend/pages/profile/index.jsx:124 | Inserting keeps the list sorted by descending key. |
| SemesterOrder.InsertDescStable | frontend/pages/profile/index.jsx:124 | Inserting puts the new element after the existing elements with its key. |
| SemesterOrder.WithKeyAppend | frontend/pages/profile/index.jsx:124 | The elements with one key of a list plus one element. |
| SemesterOrder.WithKeyNone | frontend/pages/profile/index.jsx:124 | No element has a key above all keys. |
| SemesterOrder.SortDescSorted | frontend/pages/profile/index.jsx:124 | The stable sort with comparator `value(b) - value(a)` orders by descending key. |
| SemesterOrder.SortDescPermutesStably | frontend/pages/profile/index.jsx:124 | The sort is a permutation that keeps the input order among equal keys. |
| SemesterOrder.SortedSemesterKeysNewestFirst | frontend/pages/profile/index.jsx:124 | Among well-formed names, the sorted keys put later years first, and within a year higher-ranked seasons first. |
| SemesterOrder.GroupByYear | frontend/pages/profile/index.jsx:126-133 | A year key that an empty object inherits (such as `constructor`) makes `acc[year].push` throw, and nothing is grouped. Otherwise the years grouped are exactly the second words of the names, and each group lists that year's names in sorted-key order. |
| SemesterOrder.GroupStep | frontend/pages/profile/index.jsx:127-131 | One step of the reduce keeps the grouping invariant. |
| SemesterOrder.InYearStep | frontend/pages/profile/index.jsx:131 | A year's group over one more name gains that name iff it has that year. |
| SemesterOrder.GroupDone | frontend/pages/profile/index.jsx:126-133 | The invariant over all names gives the result's contract. |
| SemesterOrder.InYearMembers | frontend/pages/profile/index.jsx:126-133 | A year's group holds exactly the names with that year. It is empty exactly when no name has it. |
| SemesterOrder.InYearSorted | frontend/pages/profile/index.jsx:124-133 | Each year's group stays sorted newest first. |
| SemesterOrder.SortedYears | frontend/pages/profile/index.jsx:135 | Fewer than two year keys come back unchanged. Year keys that are all digit strings come back as a permutation in descending numeric order. |
| ProfileEditor.WithoutCode | frontend/pages/profile/index.jsx:368-372 | Filtering by course code (as here and at index.jsx:324) drops exactly the entries with that code and keeps every other entry with its multiplicity. |
| ProfileEditor.WithoutItem | frontend/pages/profile/index.jsx:356-358 | Filtering drops exactly the occurrences of the item. |
| ProfileEditor.WithCourseEffect | frontend/pages/profile/index.jsx:307-319 | Adding a course leaves other terms alone. A course whose code is already in the term leaves everything unchanged. A missing term gets a one-course list. Otherwise the course is appended. |
| ProfileEditor.WithCourseKeepsCodesUnique | frontend/pages/profile/index.jsx:307-319 | Adding keeps each term's course codes unique. |
| ProfileEditor.RemoveUndoesAdd | frontend/pages/profile/index.jsx:307-326 | Removing a just-added course by its code restores the term. |
| ProfileEditor.WithoutCodeAbsent | frontend/pages/profile/index.jsx:324 | Removing an absent code keeps the list. |
| ProfileEditor.WithoutCourseEffect | frontend/pages/profile/index.jsx:321-326 | Removing keeps the term keys and the other terms. The term no longer holds the code and keeps its other courses. |
| ProfileEditor.WithItemKeepsDistinct | frontend/pages/profile/index.jsx:349-354 | Adding keeps a list free of duplicates, adds a non-empty item, and keeps every old item. |
| ProfileEditor.WithoutItemUndoesWithItem | frontend/pages/profile/index.jsx:349-358 | Removing a just-added new item restores the list. |
| ProfileEditor.WithoutItemAbsent | frontend/pages/profile/index.jsx:357 | Removing an absent item keeps the list. |
| ProfileEditor.DeleteUndoesAdd | frontend/pages/profile/index.jsx:292-305 | (helper) Deleting a just-added new term restores the map. |
| ProfileEditor.SemesterEditor.constructor | frontend/pages/profile/index.jsx:119-122 | The page starts from the loaded terms and transfers with an empty new-term field. |
| ProfileEditor.SemesterEditor.SetNewSemesterName | frontend/pages/profile/index.jsx:555 | Typing sets the new-term field only. |
| ProfileEditor.SemesterEditor.AddSemester | frontend/pages/profile/index.jsx:292-297 | A non-empty new name that is neither a term nor a member name every object inherits adds an empty term and clears the field. Otherwise nothing changes. |
| ProfileEditor.SemesterEditor.DeleteSemester | frontend/pages/profile/index.jsx:299-305 | The term is removed and nothing else changes. |
| ProfileEditor.SemesterEditor.AddCourseToSemester | frontend/pages/profile/index.jsx:307-319 | The alert fires iff the code is already in the term. The new terms are `WithCourse`. |
| ProfileEditor.SemesterEditor.RemoveCourseFromSemester | frontend/pages/profile/index.jsx:321-326 | The term's list loses the code only. |
| ProfileEditor.SemesterEditor.RemoveTransferCourse | frontend/pages/profile/index.jsx:368-372 | The transfer list loses the code only. |
| ProfileEditor.TagList.constructor | frontend/pages/profile/index.jsx:84-104 | A tag list starts from its loaded items with an empty draft. |
| ProfileEditor.TagList.SetDraft | frontend/pages/profile/index.jsx:623 | Typing sets the draft only. |
| ProfileEditor.TagList.AddItem | frontend/pages/profile/index.jsx:349-354 | The items become `WithItem` of the draft, duplicates stay excluded, and the draft is cleared. |
| ProfileEditor.TagList.RemoveItem | frontend/pages/profile/index.jsx:356-358 | The items lose that item only. |
| ProfileEditor.TrimmedNonEmpty | frontend/pages/profile/index.jsx:241 | Trimming and dropping empty pieces leaves only non-empty, trimmed pieces. |
| ProfileEditor.CurrentCoursesArray | frontend/pages/profile/index.jsx:241 | Every entry is non-empty, trimmed and comma-free. |
| ProfileEditor.TrimmedCommaFree | frontend/pages/profile/index.jsx:241 | Trimming adds no comma. |
| ProfileEditor.StripNoNew | frontend/pages/profile/index.jsx:241 | Trimming adds no new substring occurrence. |
| ProfileEditor.SplitJoined | frontend/pages/profile/index.jsx:241 | Splitting the `join(', ')` of index.jsx:185 on `,` gives the first item and the others with a leading space. |
| ProfileEditor.SplitJoinedAll | frontend/pages/profile/index.jsx:241 | The same with no prefix. |
| ProfileEditor.SplitJoinedOne | frontend/pages/profile/index.jsx:241 | The same for one item. |
| ProfileEditor.SplitJoinedMany | frontend/pages/profile/index.jsx:241 | The same for several items. |
| ProfileEditor.SpacedCons | frontend/pages/profile/index.jsx:185 | (helper) Prefixing spaces distributes over the first item. |
| ProfileEditor.StripSpaceBefore | frontend/pages/profile/index.jsx:241 | Trimming a trimmed non-empty item with a leading space gives the item. |
| ProfileEditor.TrimmedSpaced | frontend/pages/profile/index.jsx:241 | Trimming the space-prefixed items gives the items back. |
| ProfileEditor.TrimmedSpacedStep | frontend/pages/profile/index.jsx:241 | That fact carries from the tail to the whole list. |
| ProfileEditor.TrimmedNonEmptyCons | frontend/pages/profile/index.jsx:241 | A piece that trims to non-empty is kept, trimmed, in front. |
| ProfileEditor.CurrentCoursesRoundTrip | frontend/pages/profile/index.jsx:241 | Loading an array as `join(', ')` (index.jsx:185) and saving it as `split(',').map(trim).filter(Boolean)` gives it back, for non-empty, trimmed, comma-free entries. |
| ProfileEditor.EmptyFieldHasNoCourses | frontend/pages/profile/index.jsx:241 | The empty field (loaded for a missing array at index.jsx:185) saves as an empty array. |
| ProfileEditor.RoundTripNonEmpty | frontend/pages/profile/index.jsx:241 | The round trip for a non-empty array. |
| ProfileEditor.TrimmedCons | frontend/pages/profile/index.jsx:241 | (helper) Trimming keeps a trimmed first piece in front. |
| AddCourseForm.GradeOptions | frontend/components/AddCourseForm.jsx:12 | Fourteen options, each with value and label equal to the listed grade, in order. |
| AddCourseForm.SplitLabel | frontend/components/AddCourseForm.jsx:31-33 | The code has no `: `. With a `: ` in the label, code, `: ` and title rebuild the label. Without one, the code is the label and the title is empty. |
| AddCourseForm.SearchOptionRoundTrip | frontend/pages/api/courses/search.js:10-11 | For a search option whose value has no `: `, the form reads back the value as the code and the description as the title. |
| AddCourseForm.FirstPieceBeforeSeparator | frontend/components/AddCourseForm.jsx:31-32 | Text without `: `, then `: `, is the first piece of the split. |
| AddCourseForm.NewCourse | frontend/components/AddCourseForm.jsx:35-39 | The emitted entry has the selected grade's value, no credit, and the code and title from the label split. |
| AddCourseForm.CourseForm.constructor | frontend/components/AddCourseForm.jsx:15-16 | The form starts with nothing selected. |
| AddCourseForm.CourseForm.SelectCourse | frontend/components/AddCourseForm.jsx:54 | Choosing a course changes only the course selection. |
| AddCourseForm.CourseForm.SelectGrade | frontend/components/AddCourseForm.jsx:12-16 | Choosing an offered grade changes only the grade selection. |
| AddCourseForm.CourseForm.HandleAddClick | frontend/components/AddCourseForm.jsx:29-45 | With both selections, the entry is emitted with a listed grade and both selections are cleared. Otherwise the alert fires and nothing changes. |
| AddCourseForm.GradeOptionValues | frontend/components/AddCourseForm.jsx:12 | An offered grade's value is a listed grade. |
| Summary.AfterThinking | data-app/professor_reviews/generate_summaries.py:43-44 | What remains after the last `</think>` holds none. Text without one is unchanged. |
| Summary.BeforeRule | data-app/professor_reviews/generate_summaries.py:47-48 | What precedes the first `---` is a prefix holding none. Text without one is unchanged. |
| Summary.ExtractCleanSummary | data-app/professor_reviews/generate_summaries.py:34-51 | The result is stripped and holds neither `</think>` nor `---`. Text with neither is just stripped. The same function is at generate_summaries_log.py:59-76, generate_summaries_multi.py:42-59 and new_gen_summary.py:34-41. |
| Summary.CleanSummaryIdempotent | data-app/professor_reviews/new_gen_summary.py:34-41 | Cleaning a cleaned summary changes nothing. |
| Summary.ThinkingIgnored | data-app/professor_reviews/generate_summaries_log.py:68-69 | Whatever precedes the last `</think>` does not affect the summary. |
| Summary.ExplanationIgnored | data-app/professor_reviews/generate_summaries_log.py:72-76 | A summary followed by `---` and an explanation cleans to the stripped summary. |
| Summary.FirstRuleAfter | data-app/professor_reviews/generate_summaries_multi.py:55-56 | The first piece of the split on `---` is the summary when it ends in no `-`. |
| Summary.CleanJsonString | data-app/professor_reviews/generate_summaries_log.py:152-156 | The cleaned reply is stripped and holds no code fence. |
| Summary.FencedReplyUnwrapped | data-app/professor_reviews/generate_summaries_multi.py:135-139 | A reply of `` ```json ``, a newline, fence-free content, a newline and `` ``` `` cleans to the stripped content. |
| Summary.OpeningFenceRemoved | data-app/professor_reviews/generate_summaries_multi.py:139 | Removing `` ```json `` from that reply leaves the rest. |
| Summary.ClosingFenceRemoved | data-app/professor_reviews/generate_summaries_multi.py:139 | Removing `` ``` `` then leaves the content between newlines. |
| Summary.BodyHasNoJsonFence | data-app/professor_reviews/generate_summaries_multi.py:139 | After the opening fence, the reply holds no further `` ```json ``. |
| Summary.HolisticSummary | data-app/professor_reviews/generate_summaries_log.py:147-172 | Every outcome has a `summary` key and a `tags` key. |
| Summary.HolisticEmptyReply | data-app/professor_reviews/generate_summaries_multi.py:130-131 | An empty reply gives the fixed "could not be generated" summary with no tags. |
| Summary.HolisticDecoded | data-app/professor_reviews/generate_summaries_log.py:156-169 | For a non-empty reply, the decoded value is returned iff it is a dictionary with both keys. Otherwise the cleaned string becomes the summary, with no tags. |
| Summary.PyIn | data-app/professor_reviews/new_gen_summary.py:105 | Python `in` is defined exactly on dictionaries, lists and strings. On a dictionary it tests the keys. |
| Summary.SummaryAndTagsAsWritten | data-app/professor_reviews/new_gen_summary.py:104-108 | As written, the result has both keys or is a list or a string. |
| Summary.KeyNamesListPassesCheck | data-app/professor_reviews/new_gen_summary.py:105 | A decoded list `["summary", "tags"]` passes the check and is returned as a list. |
| Summary.SummaryAndTagsAsWrittenDecoded | data-app/professor_reviews/new_gen_summary.py:104-105 | As written, a decoded value comes back unchanged exactly when both `in` tests hold. It becomes the `str` fallback when a test fails without raising, and the fixed fallback when `in` raises. |
| Summary.SummaryAndTags | data-app/professor_reviews/new_gen_summary.py:104-108 | With the dictionary check, every result has both keys. |
| Summary.SummaryAndTagsDecoded | data-app/professor_reviews/new_gen_summary.py:104-105 | With the dictionary check, a decoded value comes back unchanged exactly when it is a dictionary with both keys. Every other decoded value becomes the `str` fallback. |
| Summary.SummaryAndTagsCorrection | data-app/professor_reviews/new_gen_summary.py:104-108 | The two versions agree when the call or the decode fails, and when the reply decodes to a dictionary. On any other decoded value the corrected one gives the `str` fallback. |
| Summary.SummaryAndTagsFailure | data-app/professor_reviews/new_gen_summary.py:106-108 | A failed chat call or decode gives the fixed fallback in both versions. |

## Left out

- Everything outside the named core: authentication and sessions, the database, the `GET` handler, form-data and PDF parsing, fetching options, rendering, and the clustering and chat prompts of the summary scripts.
- Input that comes from outside is a parameter. The PDF text is a string, or `None` when it is not a string. The chat reply is `None` when the call raises. `json.loads` and Python's `str` are function parameters. `alert` is a returned flag.
- Transcript.CreditTenths: `parseFloat` of a `d.d` credit is kept as integer tenths rather than a floating-point number. Every credit group has that form, so no value is lost.
- Form-added courses carry no credit, so the credit is `None`.
- JSON numbers keep only their integer value in the decoded-value datatype. The summary code never inspects them.
- Logging and `console` output are left out. So are the thread pool of the multi-threaded script and React's batching of state updates.
- JavaScript object key order (insertion order) is not modelled: terms are maps. The sort and grouping functions therefore take the key sequence as input.
- SortedYears: with two or more year keys that are not all digit strings the model returns `None`, which is a simplification. JavaScript orders many such keys. Keys such as `-5`, `1e3` or `2024.5` are numbers to `b - a`. Keys that are all non-numeric make the comparator give `NaN`, which `sort` treats as 0, so their order is kept. Only a mix of numeric and non-numeric keys has an engine-dependent order.
- SemesterValue: the value is computed on unbounded integers. The page computes it on floating-point numbers (`parseInt` at index.jsx:66, `year * 10 + …` at index.jsx:76). The two agree while ten times the year stays below 2^53. For longer digit strings `parseInt` is inexact in JavaScript, and the model stays exact.
- Reads of a term map by a key are checked against inherited member names only where such a key can reach them. AddSemester and GroupByYear take user-typed text and model them. The bucket test of `parseApasText` (profile.js:77) only reads term names, which are never inherited names (TranscriptFacts.TermNameNotInherited). The course handlers (index.jsx:307-326) and `semestersByYear[year]` at render (index.jsx:507) read keys that the page has already listed.
- Whitespace follows each language's own set. That is the full JavaScript `\s`/`trim` set and Python's `str.isspace` set, not ASCII only. Line terminators are the JavaScript set.
- The `lastIndex++` guard for empty matches (profile.js:47-49) cannot fire, because every match is at least thirteen characters long. `lastIndex` is kept as an unbounded integer.
- Non-string `termCode` and `text` arguments (the `typeof` checks) are `None`. A non-string course or item in the page state is not modelled.
- ProfileEditor.SemesterEditor.RemoveCourseFromSemester requires the term to exist. In the page, the remove button only appears inside an existing term's card (index.jsx:532-535), and a missing term would make `prev[semesterName].filter` throw.
- A transcript line such as `F24 1CSCI30813.0B…`, with a space between term and course, does not match the regular expression, because `\s?` sits inside the term group. The model follows the code here (Grammar.SpacedLineDoesNotMatch).

## Findings

| source | as written | input that shows it | evidently intended | confidence | as-written member | corrected member |
|---|---|---|---|---|---|---|
| data-app/professor_reviews/new_gen_summary.py:105 | `data if "summary" in data and "tags" in data else …` with no `isinstance(data, dict)` check | a reply that decodes to the list `["summary", "tags"]` (or to a string containing both words) is returned as it is, and the caller then reads it as a dictionary | the dictionary check the log and multi-threaded scripts make (generate_summaries_log.py:162), which sends every other decoded value to the `str` fallback | not executed | Summary.KeyNamesListPassesCheck | Summary.SummaryAndTags |
