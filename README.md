# selector_helper course-planning core in Dafny

This project models the logic behind the NSYSU course selector. The site exists in two
generations: an older React app in JSX (`app/`) and a newer client website in TSX
(`client-website/`). Both let a student do the following:

- search the course catalogue with a keyword filter and eleven advanced filter rows
  (名稱, 教師, 學程, 節次, 星期, 年級, 班別, 系所, 必修, 學分, 英課);
- hide courses that clash with the current selection;
- browse the "course detective" categories in a user-chosen order;
- see the selection on a weekday × period timetable;
- mark courses for registration, give them weights, and export them as a form-filling
  script that can be imported again.

The model covers the data those features work on and the operations that change it.

- **Data.** Courses are values (`Courses.Course`). A JavaScript `Set` of courses or numbers
  is an insertion-ordered sequence without repeats (`Seqs.Insert`/`Seqs.Delete`). The
  configuration constants live in `Config`.
- **Pure code.** Filters, dedups, the record mapping and the file-name parses are
  functions, and lemmas state what they promise.
- **Stateful components.** Each component whose handlers update its state is a class:
  - `AppSession.Session` holds the page's selection and searched slots;
  - `SelectedCourses.SelectedCourse` holds the added set and the weights;
  - `ImportDialog.ImportModal`, `HowToUse.HowToUseModal`, `RequiredCourses.RequiredCourse`,
    `CourseDetective.Detective` and `SelectorSetting.OptionsState` hold the state of their
    dialogs and panels.

  Each handler is a method whose postcondition gives the whole new state.
- **Loops.** Loops in the source are loops here, proved against the specification
  functions: the conflict scans, the hour total, the option collection, the 節次 filter,
  the timetable build, the detective bucket walk, the Fisher–Yates shuffle on an array,
  the colour hash and the file grouping.
- **Library calls.**
  - `Math.random` is an oracle parameter.
  - `localStorage` is a field that holds the parsed saved value.
  - `JSON.stringify`/`JSON.parse` are modelled on the JSON subset the export uses
    (RFC 8259 values without fractions or exponents), with a proved round trip.
  - `parseInt` and `Number.prototype.toString` are modelled on integers.

Where the two generations run the same code (conflict tests, session handlers, timetable,
required-course panel, help dialog, colour hash), one member models both, and the table
cites each file. Where they differ, both behaviours are modelled:

- the filter shapes (`AllCourseTsx` and `AllCourseJsx`);
- the filter-row handlers (`FilterRow`);
- the adoption of a saved detective order;
- the rebuild or spread of the option entries.

## Model

| member | source | states |
|---|---|---|
| Config.WeekdaysComplete | app/src/config.jsx:198-220 | `courseDayName` lists the seven week days, Monday first, each once |
| Config.WeekdayOfKey | app/src/config.jsx:198-206 | the day whose key is the given text, or none exactly when no day has that key |
| Config.TimeSlotsDistinct | app/src/config.jsx:180-196 | `timeSlot` has fifteen pairwise distinct period keys |
| Config.PeriodOptionsReorderTimeSlots | app/src/config.jsx:127-146 | the 節次 options are the fifteen period keys with '4' and 'B' exchanged, so 'B' comes before '4' |
| Config.DefaultWeekdayOptionsMatchTimetable | app/src/config.jsx:147-159 | the 星期 options are the weekday keys in order and their display names are the weekday names |
| Config.DefaultFilterOptions | app/src/config.jsx:123-178 | every option list with display names has as many names as options; only 名稱, 教師 and 學程 have no drop-down |
| Config.FilterNamesComplete | app/src/config.jsx:123-178 | the eleven filter rows cover every filter name and have distinct labels |
| Config.CourseDataField | app/src/config.jsx:208-218 | `courseDataNameMap` gives a field to exactly the nine rows other than 星期 and 節次, never a day field |
| Config.CourseDataFieldInjective | app/src/config.jsx:208-218 | two rows that read a field read different fields |
| Config.DetectiveElementsDefaults | app/src/config.jsx:109-121 | eleven categories with distinct ids; the first five start enabled, the last six disabled |
| JsStrings.SplitWs | client-website/src/components/SelectorSetting/AllCourse.tsx:124 | `split(/\s+/)`: no token holds white space, the first token is the text before the first white space, the first (last) token is empty exactly when the text starts (ends) with white space or is empty, and every inner token is non-empty |
| JsStrings.SplitWsJoin | client-website/src/components/SelectorSetting/AllCourse.tsx:124 | the tokens joined by single spaces are the text with each maximal white-space run collapsed to one space, an independent scan; with the tokens free of white space this fixes the split |
| JsStrings.SplitWsNoSpace | client-website/src/components/SelectorSetting/AllCourse.tsx:124 | a text without white space splits into itself |
| JsStrings.SplitOnJoin | client-website/src/utils/mapNewApiToOldApiFormat.ts:38 | splitting on one separator character and joining with it gives the text back |
| JsStrings.Trim | client-website/src/components/SelectorSetting/AllCourse.tsx:214 | `trim()`: the text is the result with white space only before and after it, and a non-empty result neither starts nor ends with white space |
| JsStrings.TrimIdempotent | client-website/src/components/SelectorSetting/AllCourse.tsx:214 | the `group.trim()` of a keyword group: trimming twice is trimming once (app/src/components/SelectorSetting/AllCourse.jsx:158 trims the same way) |
| JsStrings.LexLessTotal | client-website/src/api/NSYSUCourseAPIOld.ts:62-76 | the code-point order that models `sort()` on strings, and stands in for `localeCompare`, is total |
| JsStrings.LexLessTransitive | client-website/src/api/NSYSUCourseAPIOld.ts:62-76 | that order is transitive |
| Seqs.Filter | client-website/src/components/SelectorSetting/AllCourse.tsx:126-136 | `Array.filter` keeps exactly the elements passing the test and never lengthens the list |
| Seqs.FilterIsSubsequence | client-website/src/components/SelectorSetting/AllCourse.tsx:116-149 | a filtered list is an order-preserving subsequence of its input |
| Seqs.FilterIdempotent | client-website/src/components/SelectorSetting/AllCourse.tsx:116-149 | filtering twice by one test is filtering once |
| Seqs.FilterFilter | client-website/src/components/SelectorSetting/AllCourse.tsx:116-149 | two filters in a row are one filter by both tests |
| Seqs.Insert | app/src/App.jsx:289-305 | `Set.add` keeps a repeat-free list repeat-free, adds the value at the end only when it is new |
| Seqs.Delete | app/src/App.jsx:289-305 | `Set.delete` keeps every other value, in order, and removes the value |
| Seqs.DeleteInsert | app/src/App.jsx:289-305 | adding a value that was absent and deleting it gives the set back |
| Seqs.Distinct | client-website/src/api/NSYSUCourseAPI.ts:48 | `Array.from(new Set(s))` has no repeats, the same members as `s`, lists them in the order of their first appearance in `s`, and is a subsequence of `s` |
| Seqs.DistinctOfNoDups | client-website/src/api/NSYSUCourseAPI.ts:48 | on a repeat-free list it is the list itself |
| Seqs.IndexOf | app-old/src/components/SelectorSetting/AllCourse/ListInformation/AdvancedFilter.jsx:52 | `indexOf` is -1 exactly for an absent value, else the first index holding it |
| Numerals.NatToString | client-website/src/utils/mapNewApiToOldApiFormat.ts:24-27 | the decimal rendering is all digits with no leading zero |
| Numerals.DecimalValueOfNatToString | client-website/src/utils/mapNewApiToOldApiFormat.ts:24-27 | the rendering reads back as the number |
| Numerals.ParseInt | app/src/components/SelectorSetting/SelectedCourse.jsx:104-117 | `parseInt` of blank text is `NaN` |
| Numerals.ParseIntOfIntToString | app/src/components/SelectorSetting/SelectedCourse.jsx:104-117 | `parseInt(n.toString())` is `n` for every integer |
| Numerals.ParseIntReadsDigitPrefix | app/src/components/SelectorSetting/SelectedCourse.jsx:104-117 | leading blanks and trailing text are ignored: `" 42kg"` reads 42 |
| Numerals.ParseIntReadsHexPrefix | app/src/components/SelectorSetting/SelectedCourse.jsx:104-117 | a `0x` prefix reads base 16: `"0x1A"` reads 26 |
| Numerals.ParseIntWithoutDigits | app/src/components/SelectorSetting/SelectedCourse.jsx:104-117 | every text without a decimal digit reads `NaN` |
| JsonText.Stringify | app/src/components/SelectorSetting/SelectedCourse.jsx:149 | `JSON.stringify` writes no control character and never starts with a blank or a closing bracket or brace |
| JsonText.ParseStringify | app/src/components/SelectorSetting/SelectedCourse.jsx:196 | `JSON.parse(JSON.stringify(v))` gives `v` back |
| JsonText.ValueRoundTrip | app/src/components/SelectorSetting/SelectedCourse.jsx:196 | a written value followed by any delimiter is read back with the delimiter left over |
| JsonText.StringRoundTrip | app/src/components/SelectorSetting/SelectedCourse.jsx:196 | an escaped string body is read back as the string |
| JsonText.NoLineFeed | app/src/components/SelectorSetting/SelectedCourse.jsx:149 | the text `JSON.stringify` writes contains no line feed |
| Sorting.SortStrings | app/src/components/SelectorSetting.jsx:42-43 | `sort()` on strings returns them ascending, as a permutation of the input |
| Sorting.SortedUnique | app/src/components/SelectorSetting.jsx:42-43 | two ascending arrangements of the same strings are equal |
| Sorting.SortIgnoresOrder | app/src/components/SelectorSetting.jsx:42-43 | the sorted result does not depend on the input order |
| Sorting.SortedSet | app/src/components/SelectorSetting.jsx:42-43 | a set's members listed strictly ascending, each once |
| SelectorSetting.IsConflict | app/src/components/SelectorSetting.jsx:95-106 | the early-exit scan answers true exactly when on some day both courses meet and their period strings share a period; the other generation runs the same code at client-website/src/components/SelectorSetting.tsx:124-135 |
| SelectorSetting.DetectTimeConflict | app/src/components/SelectorSetting.jsx:80-87 | true exactly when some selected course conflicts with the candidate; false for an empty selection; the other generation runs the same code at client-website/src/components/SelectorSetting.tsx:106-116 |
| SelectorSetting.ConflictSymmetric | client-website/src/components/SelectorSetting.tsx:124-135 | a conflicts with b exactly when b conflicts with a |
| SelectorSetting.SelfConflictIffMeets | client-website/src/components/SelectorSetting.tsx:124-135 | a course conflicts with itself exactly when it meets at all |
| SelectorSetting.NoMeetingNoConflict | client-website/src/components/SelectorSetting.tsx:126 | a course whose seven period strings are empty conflicts with no selection |
| SelectorSetting.SelectedCourseConflicts | client-website/src/components/SelectorSetting.tsx:106-116 | a meeting course already in the selection is reported as conflicting |
| SelectorSetting.HoursZeroIffNoMeeting | client-website/src/components/SelectorSetting.tsx:84-98 | a course adds no hours exactly when it never meets |
| SelectorSetting.TotalHoursAppend | client-website/src/components/SelectorSetting.tsx:84-98 | the hour total of two selections together is the sum of their totals |
| SelectorSetting.CalculateTotalHours | app/src/components/SelectorSetting.jsx:60-72 | the accumulating loop ends with the total number of periods per week over the selection; the other generation runs the same code at client-website/src/components/SelectorSetting.tsx:84-98 |
| SelectorSetting.SortedDistinct | app/src/components/SelectorSetting.jsx:42-43 | `Array.from(new Set(v)).sort()` is strictly ascending with exactly the members of `v` |
| SelectorSetting.SortedDistinctIsSortedSet | client-website/src/components/SelectorSetting.tsx:60-61 | it equals the ascending enumeration of the value set, whatever the catalogue order |
| SelectorSetting.CollectFilterOptions | app/src/components/SelectorSetting.jsx:30-53 | the set-building loop yields the departments and credits of the catalogue, once each, ascending |
| SelectorSetting.RebuiltEntry | client-website/src/components/SelectorSetting.tsx:52-77 | the newer page's 系所/學分 entry carries the new options and the old drop-down flag, and no display names |
| SelectorSetting.SpreadEntry | app/src/components/SelectorSetting.jsx:30-53 | the older page's entry carries the new options and keeps every other field of the old entry |
| SelectorSetting.EntryUpdatesAgreeOnDefaults | client-website/src/components/SelectorSetting.tsx:52-77 | on the default entries the two updates give the same entry |
| SelectorSetting.OptionsState.CalculateFilterOptions | app/src/components/SelectorSetting.jsx:30-53 | only the 系所 and 學分 entries change; they get the sorted distinct department and credit values, spread into the old entry (older page) or rebuilt with its drop-down flag (client-website/src/components/SelectorSetting.tsx:52-77) |
| AllCourseTsx.BasicFilter | client-website/src/components/SelectorSetting/AllCourse.tsx:123-136 | an empty basic filter keeps the list; otherwise the kept courses are those in which every keyword occurs in one of the five fields |
| AllCourseTsx.BlankBasicFilterKeepsAll | client-website/src/components/SelectorSetting/AllCourse.tsx:123-136 | a basic filter made only of white space keeps every course, because each keyword is empty |
| AllCourseTsx.TextFilterCommaIsOr | client-website/src/components/SelectorSetting/AllCourse.tsx:201-228 | groups separated by a comma are alternatives: the text filter passes exactly when one of the parts passes |
| AllCourseTsx.TextFilterSingleKeyword | client-website/src/components/SelectorSetting/AllCourse.tsx:201-228 | a single keyword tests equality, substring or absence of substring according to equal/include/exclude, include when unset |
| AllCourseTsx.ToLowerKeepsSeparators | client-website/src/components/SelectorSetting/AllCourse.tsx:207-210 | lowercasing never creates or removes a comma or white space, so splitting before or after it agrees |
| AllCourseTsx.WeekdayExcludeNegatesInclude | client-website/src/components/SelectorSetting/AllCourse.tsx:245-258 | 星期 exclude is the negation of 星期 include |
| AllCourseTsx.WeekdayEqualMissingDayFails | client-website/src/components/SelectorSetting/AllCourse.tsx:252-256 | in 星期 equal mode a day missing from the options makes every course fail |
| AllCourseTsx.WeekdayEqualWithTrueOnlyOptions | client-website/src/components/SelectorSetting/AllCourse.tsx:252-256 | with options that are never false, 星期 equal passes only when all seven days are on and the course meets every day |
| AllCourseTsx.PeriodsMatchedLoop | client-website/src/components/SelectorSetting/AllCourse.tsx:260-274 | the `periodsMatched ||=` loop ends true exactly when some period of some meeting day is an active option |
| AllCourseTsx.PeriodsEqualLoop | client-website/src/components/SelectorSetting/AllCourse.tsx:275-290 | the `periodsMatched &&=` loop ends true exactly when every meeting day's sorted periods equal the sorted active periods |
| AllCourseTsx.SortedCharsIsStringSort | client-website/src/components/SelectorSetting/AllCourse.tsx:285 | `split('').sort().join('')` is the characters in ascending order |
| AllCourseTsx.PeriodsOfNonMeetingCourse | client-website/src/components/SelectorSetting/AllCourse.tsx:260-290 | for a course that never meets, 節次 equal holds vacuously and 節次 include fails |
| AllCourseTsx.PeriodsEqualExample | client-website/src/components/SelectorSetting/AllCourse.tsx:275-290 | with 5 and 6 on, Monday "65" passes 節次 equal and Monday "567" does not |
| AllCourseTsx.OptionFilterIgnoresLogic | client-website/src/components/SelectorSetting/AllCourse.tsx:305-317 | the option filter is the membership test whatever the logic, since both logic strings are truthy |
| AllCourseTsx.ApplyAdvancedFilters | client-website/src/components/SelectorSetting/AllCourse.tsx:161-191 | a course is kept exactly when every row passes |
| AllCourseTsx.InertFiltersKeepAll | client-website/src/components/SelectorSetting/AllCourse.tsx:161-191 | rows that are inactive and hold no text (or are time rows) keep every course |
| AllCourseTsx.FilterOutConflictCourses | client-website/src/components/SelectorSetting/AllCourse.tsx:324-335 | selected courses are kept, an unselected course is kept exactly when it conflicts with nothing selected, and nothing is added |
| AllCourseTsx.GetFilteredCourses | client-website/src/components/SelectorSetting/AllCourse.tsx:116-149 | a course is listed exactly when it is in the catalogue and passes the basic, advanced and (when hidden) conflict stages |
| AllCourseTsx.BasicThenAdvanced | client-website/src/components/SelectorSetting/AllCourse.tsx:116-141 | the basic stage followed by the advanced stage is one filter by both tests |
| AllCourseTsx.GetFilteredIsOneFilter | client-website/src/components/SelectorSetting/AllCourse.tsx:116-149 | the three stages are a single filter of the catalogue, so order and repeats are the catalogue's |
| AllCourseTsx.GetFilteredIsSubsequence | client-website/src/components/SelectorSetting/AllCourse.tsx:116-149 | the list is an order-preserving subsequence of the catalogue |
| AllCourseTsx.GetFilteredIdempotent | client-website/src/components/SelectorSetting/AllCourse.tsx:116-149 | filtering the filtered list again with the same settings changes nothing |
| AllCourseJsx.ApplyTextFilter | app/src/components/SelectorSetting/AllCourse.jsx:150-165 | throws exactly on the time rows (no course field); otherwise agrees with the newer text filter under include or exclude from the `include` flag |
| AllCourseJsx.ApplyTimeFilter | app/src/components/SelectorSetting/AllCourse.jsx:174-203 | 星期 and 節次 pass on some match under include and on none under exclude; any other row throws |
| AllCourseJsx.TimeExcludeNegatesInclude | app/src/components/SelectorSetting/AllCourse.jsx:174-199 | exclude is the negation of include on the time rows |
| AllCourseJsx.ApplyOptionFilter | app/src/components/SelectorSetting/AllCourse.jsx:213-222 | membership among the row's own truthy keys, inverted only when `include` is false |
| AllCourseJsx.OptionExcludeNegatesInclude | app/src/components/SelectorSetting/AllCourse.jsx:213-222 | `include: false` inverts the option test, unlike the newer page |
| AllCourseJsx.Every | app/src/components/SelectorSetting/AllCourse.jsx:119-141 | all rows pass exactly when each row's outcome is a pass |
| AllCourseJsx.TextOnTimeRowThrows | app/src/components/SelectorSetting/AllCourse.jsx:124-128 | a row holding text on 星期 or 節次 throws when every row before it passes |
| AllCourseJsx.FailingRowShieldsLaterRows | app/src/components/SelectorSetting/AllCourse.jsx:119-141 | a failing row stops `every` before a later row can throw |
| AllCourseJsx.WellFormedNeverThrows | app/src/components/SelectorSetting/AllCourse.jsx:119-141 | rows with no text on a time row never throw |
| AllCourseJsx.ApplyAdvancedFilters | app/src/components/SelectorSetting/AllCourse.jsx:119-141 | throws exactly when some course makes a row throw; otherwise keeps, in order, the courses every row passes |
| AllCourseJsx.GetFilteredCourses | app/src/components/SelectorSetting/AllCourse.jsx:78-111 | throws exactly when a basic-filtered course makes a row throw; otherwise an order-preserving subsequence of the catalogue holding exactly the accepted courses |
| FilterRow.GenerateFilteredOptions | client-website/src/components/SelectorSetting/AllCourse/ListInformation/AdvancedFilter/FilterRow.tsx:110-133 | the options whose shown name (or the option itself) starts with the lowercased search, in original order; throws when display names run short; the older page (app/src/components/SelectorSetting/AllCourse/ListInformation/AdvancedFilter/FilterRow.jsx:88-109) tests the display name whenever the row has display names |
| FilterRow.EmptySearchListsAll | client-website/src/components/SelectorSetting/AllCourse/ListInformation/AdvancedFilter/FilterRow.tsx:110-133 | an empty search lists every option |
| FilterRow.DefaultOptionsSearchable | client-website/src/components/SelectorSetting/AllCourse/ListInformation/AdvancedFilter/FilterRow.tsx:110-133 | the default option lists never make the search throw |
| FilterRow.SetMode | client-website/src/components/SelectorSetting/AllCourse/ListInformation/AdvancedFilter/FilterRow.tsx:140-150 | only the row's logic changes; other rows and fields stay |
| FilterRow.SelectAll | client-website/src/components/SelectorSetting/AllCourse/ListInformation/AdvancedFilter/FilterRow.tsx:156-176 | throws exactly when the row is missing (`.active` of `undefined`); otherwise exactly the listed options are on, the text is cleared, `active` and the logic are copied, other rows stay |
| FilterRow.DeselectAll | client-website/src/components/SelectorSetting/AllCourse/ListInformation/AdvancedFilter/FilterRow.tsx:182-197 | no option is on, the text is cleared, the logic defaults to include, other rows stay; a missing row becomes the default row (inactive, no text, include) |
| FilterRow.ToggleOption | client-website/src/components/SelectorSetting/AllCourse/ListInformation/AdvancedFilter/FilterRow.tsx:204-223 | the option's on-state flips and every other key is untouched; options stay true-only |
| FilterRow.SelectOption | client-website/src/components/SelectorSetting/AllCourse/ListInformation/AdvancedFilter/FilterRow.tsx:204-223 | throws exactly when the row is missing (`activeOptions` of `{}` is `undefined`); otherwise only that row's options change, by the toggle |
| FilterRow.UpgradedFiltersThrow | client-website/src/components/SelectorSetting/AllCourse/ListInformation/AdvancedFilter/FilterRow.tsx:156-223 | from the empty filters the newer page starts with when only an older `basicFilter` is saved (client-website/src/components/SelectorSetting/AllCourse.tsx:65-73), select all and clicking an option throw for every row, while deselect all fills in the default row |
| FilterRow.SelectAllFixed | client-website/src/components/SelectorSetting/AllCourse/ListInformation/AdvancedFilter/FilterRow.tsx:156-176 | select all on the row as rendered (`advancedFilters[filterName] \|\| {...}`): never throws, exactly the listed options on, text cleared, other rows stay |
| FilterRow.SelectOptionFixed | client-website/src/components/SelectorSetting/AllCourse/ListInformation/AdvancedFilter/FilterRow.tsx:204-223 | option select on the row as rendered: never throws, only that row's options change, by the toggle |
| FilterRow.FixedHandlersAgree | client-website/src/components/SelectorSetting/AllCourse/ListInformation/AdvancedFilter/FilterRow.tsx:156-223 | the corrected handlers equal the handlers as written wherever those do not throw, and on the empty filters they select exactly the listed options, or exactly the clicked one |
| FilterRow.ToggleTwiceRestores | client-website/src/components/SelectorSetting/AllCourse/ListInformation/AdvancedFilter/FilterRow.tsx:204-223 | toggling an option twice restores which options are on |
| FilterRow.SetText | client-website/src/components/SelectorSetting/AllCourse/ListInformation/AdvancedFilter/FilterRow.tsx:230-245 | only the row's text changes |
| FilterRow.ToggleActive | client-website/src/components/SelectorSetting/AllCourse/ListInformation/AdvancedFilter/FilterRow.tsx:251-263 | only the row's `active` flag flips |
| FilterRow.ToggleActiveTwice | client-website/src/components/SelectorSetting/AllCourse/ListInformation/AdvancedFilter/FilterRow.tsx:251-263 | flipping the switch twice restores the filters |
| FilterRow.HandlersMakeWeekdayEqualStrict | client-website/src/components/SelectorSetting/AllCourse/ListInformation/AdvancedFilter/FilterRow.tsx:156-223 | with options edited only by the handlers, 星期 equal passes only courses meeting on all seven days with all seven on |
| FilterRow.SetFlatMode | app/src/components/SelectorSetting/AllCourse/ListInformation/AdvancedFilter/FilterRow.jsx:116-126 | only the row's `filterLogic` changes (a missing row starts empty) |
| FilterRow.SelectAllFlat | app/src/components/SelectorSetting/AllCourse/ListInformation/AdvancedFilter/FilterRow.jsx:132-150 | a fresh row of `active`, `filterLogic` and exactly the listed options on; the text is dropped |
| FilterRow.DeselectAllFlat | app/src/components/SelectorSetting/AllCourse/ListInformation/AdvancedFilter/FilterRow.jsx:156-168 | only `active` and `filterLogic` remain |
| FilterRow.NegateOption | app/src/components/SelectorSetting/AllCourse/ListInformation/AdvancedFilter/FilterRow.jsx:175-190 | the option's value is negated and kept even when false; other keys stay |
| FilterRow.SelectOptionFlat | app/src/components/SelectorSetting/AllCourse/ListInformation/AdvancedFilter/FilterRow.jsx:175-190 | only that row's options change, by the negation |
| FilterRow.SetFlatText | app/src/components/SelectorSetting/AllCourse/ListInformation/AdvancedFilter/FilterRow.jsx:197-209 | only the row's text changes |
| FilterRow.ToggleFlatActive | app/src/components/SelectorSetting/AllCourse/ListInformation/AdvancedFilter/FilterRow.jsx:211-227 | only the row's `active` flips, a missing flag counting as false |
| FilterRow.ModeIgnoredWithoutIncludeKey | app/src/components/SelectorSetting/AllCourse/ListInformation/AdvancedFilter/FilterRow.jsx:116-126 | the mode the older editor writes does not change what the older filter decides for a row without `include` |
| FilterRow.SelectedCount | app/src/components/SelectorSetting/AllCourse/ListInformation/AdvancedFilter/FilterRow.jsx:261-266 | the count is at least the number of options on, and equal to it for a row without text or `include` |
| FilterRow.SelectAllCount | app/src/components/SelectorSetting/AllCourse/ListInformation/AdvancedFilter/FilterRow.jsx:261-266 | after select-all the count is the number of distinct options |
| FilterRow.DeselectAllCount | app/src/components/SelectorSetting/AllCourse/ListInformation/AdvancedFilter/FilterRow.jsx:261-266 | after deselect-all the count is zero |
| FilterRow.DisplayNameOf | app-old/src/components/SelectorSetting/AllCourse/ListInformation/AdvancedFilter.jsx:47-59 | the non-empty display name at the option's first index, else the option name itself (missing row, no display names, unknown option) |
| FilterRow.WeekdayDisplayNames | app-old/src/components/SelectorSetting/AllCourse/ListInformation/AdvancedFilter.jsx:47-59 | with the default options a weekday key shows as its one-character name |
| CourseDetective.CategoryOfId | client-website/src/components/SelectorSetting/CourseDetective.tsx:49-80 | the category an id names among the table's own keys, or none exactly when no category has that id (keys inherited from `Object.prototype` are under Left out) |
| CourseDetective.DefaultElementsKnown | client-website/src/components/SelectorSetting/CourseDetective.tsx:49-80 | every default element names a category |
| CourseDetective.SportsCategoriesPartition | client-website/src/components/SelectorSetting/CourseDetective.tsx:51-75 | the two sports categories split the sports courses between them and never share one |
| CourseDetective.RandomCoursesExclusive | client-website/src/components/SelectorSetting/CourseDetective.tsx:51-75 | a random undergraduate course matches no other category, the graduate one in particular |
| CourseDetective.EnglishLevelsExclusive | app/src/components/SelectorSetting/CourseDetective.jsx:51-54 | no course is at two English levels |
| CourseDetective.TimeSlotPool | client-website/src/components/SelectorSetting/CourseDetective.tsx:146-153 | every course when no cell is clicked, else the courses meeting in a clicked cell, in order; the other generation runs the same code at app/src/components/SelectorSetting/CourseDetective.jsx:120-127 |
| CourseDetective.EnabledElements | client-website/src/components/SelectorSetting/CourseDetective.tsx:159-160 | the enabled elements, in order |
| CourseDetective.BucketMatches | client-website/src/components/SelectorSetting/CourseDetective.tsx:171-174 | the pool courses of the category whose number is not yet listed |
| CourseDetective.Arrange | client-website/src/components/SelectorSetting/CourseDetective.tsx:176-181 | the bucket as appended is a rearrangement of the matches |
| CourseDetective.UnknownIdAddsNothing | client-website/src/components/SelectorSetting/CourseDetective.tsx:162-166 | an element whose id is none of the table's own keys appends nothing (ids inherited from `Object.prototype` are under Left out) |
| CourseDetective.KnownIdAppendsBucket | client-website/src/components/SelectorSetting/CourseDetective.tsx:167-187 | a known element appends its bucket, in pool order or shuffled for the random categories |
| CourseDetective.ReorderSound | client-website/src/components/SelectorSetting/CourseDetective.tsx:171-174 | every listed course is a pool course matched by some enabled category |
| CourseDetective.ReorderPrefix | client-website/src/components/SelectorSetting/CourseDetective.tsx:156-187 | the list for a prefix of the enabled elements is a prefix of the list |
| CourseDetective.ReorderDistinctNumbers | client-website/src/components/SelectorSetting/CourseDetective.tsx:156-187 | no number is listed twice when the pool's numbers are distinct |
| CourseDetective.ReorderCovers | client-website/src/components/SelectorSetting/CourseDetective.tsx:156-187 | every pool course matched by an enabled category has its number listed |
| CourseDetective.EarliestCategoryPlaces | client-website/src/components/SelectorSetting/CourseDetective.tsx:156-187 | a course matched by several enabled categories is placed by the earliest of them |
| CourseDetective.SameNumberTwiceInOneCategory | app/src/components/SelectorSetting/CourseDetective.jsx:139-154 | numbers are tracked between categories only: two courses with one number in one category are both listed |
| CourseDetective.NothingEnabledListsNothing | client-website/src/components/SelectorSetting/CourseDetective.tsx:156-187 | with nothing enabled the list is empty |
| CourseDetective.ToggleElement | client-website/src/components/SelectorSetting/CourseDetective.tsx:196-205 | only the elements with that id change, and only their `enabled` flag |
| CourseDetective.ToggleElementTwice | client-website/src/components/SelectorSetting/CourseDetective.tsx:196-205 | toggling twice gives the order back |
| CourseDetective.EmptySavedOrder | app/src/components/SelectorSetting/CourseDetective.jsx:57-69 | the older page adopts a saved empty order and then lists nothing; the newer page ignores it |
| CourseDetective.MatchingCourses | client-website/src/components/SelectorSetting/CourseDetective.tsx:171-181 | the bucket, shuffled in place for the random categories |
| CourseDetective.PushAll | client-website/src/components/SelectorSetting/CourseDetective.tsx:183-186 | the list grows by the bucket and the recorded numbers are those of the list |
| CourseDetective.Detective.ReorderAndFilterCourses | client-website/src/components/SelectorSetting/CourseDetective.tsx:141-191 | the shown list becomes the specification's list for the pool and the enabled elements; the other generation runs the same code at app/src/components/SelectorSetting/CourseDetective.jsx:115-160 |
| CourseDetective.Detective.Mount | app/src/components/SelectorSetting/CourseDetective.jsx:57-69 | the saved order replaces the default one when the generation accepts it, then the list is built; the older page adopts any saved order, the newer one (client-website/src/components/SelectorSetting/CourseDetective.tsx:82-95) only a non-empty one |
| CourseDetective.Detective.SetOrderElements | client-website/src/components/SelectorSetting/CourseDetective.tsx:110-122 | the new order is stored, saved and applied |
| CourseDetective.Detective.ToggleOrderElementEnable | client-website/src/components/SelectorSetting/CourseDetective.tsx:196-212 | one category flips, the order is saved and the list rebuilt; the other generation runs the same code at app/src/components/SelectorSetting/CourseDetective.jsx:164-182 |
| Shuffling.Draw | client-website/src/components/SelectorSetting/CourseDetective.tsx:132 | the drawn index lies in `0..i` |
| Shuffling.ShufflePermutes | client-website/src/components/SelectorSetting/CourseDetective.tsx:130-136 | the shuffle loses, adds and duplicates nothing |
| Shuffling.ShuffleWithoutSwaps | client-website/src/components/SelectorSetting/CourseDetective.tsx:130-136 | draws that always keep the current element leave the array as it was |
| Shuffling.ShuffleArray | client-website/src/components/SelectorSetting/CourseDetective.tsx:130-136 | the in-place loop leaves the array holding the shuffle of its old contents; the other generation runs the same code at app/src/components/SelectorSetting/CourseDetective.jsx:104-110 |
| ScheduleTable.CellKeyInjective | client-website/src/components/ScheduleTable.tsx:84-93 | different cells have different keys, so no cell overwrites another |
| ScheduleTable.CellCourses | client-website/src/components/ScheduleTable.tsx:88-95 | a cell lists exactly the selected courses meeting on that day at that period, in selection order |
| ScheduleTable.CollectCell | client-website/src/components/ScheduleTable.tsx:88-95 | the inner push loop ends with the cell's courses |
| ScheduleTable.CreateCourseTable | client-website/src/components/ScheduleTable.tsx:78-100 | the table has exactly the weekday × period keys, each holding that cell's courses; the other generation runs the same code at app/src/components/ScheduleTable.jsx:84-103 |
| ScheduleTable.FillPeriod | client-website/src/components/ScheduleTable.tsx:85-96 | one pass of the outer loop adds exactly period `ti`'s cells, filled |
| ScheduleTable.CellHasNoRepeats | app/src/components/ScheduleTable.jsx:92-99 | no course is listed twice in one cell |
| ScheduleTable.EmptySelectionEmptyCells | client-website/src/components/ScheduleTable.tsx:78-100 | with nothing selected every cell is empty |
| ScheduleTable.IsTimeSlotSelected | client-website/src/components/ScheduleTable.tsx:120-126 | true exactly on the detective tab for a slot listed in the search; the other generation runs the same code at app/src/components/ScheduleTable.jsx:120-126 |
| ScheduleTable.ToggleTimeSlotSelect | client-website/src/components/ScheduleTable.tsx:107-112 | on the detective tab the slot is toggled; elsewhere nothing changes; the other generation runs the same code at app/src/components/ScheduleTable.jsx:109-114 |
| ScheduleTable.ClickFlipsOnlyThatCell | client-website/src/components/ScheduleTable.tsx:107-126 | a click on the detective tab flips that cell's highlight and no other |
| AppSession.ToggleSlot | app/src/App.jsx:328-348 | an absent slot is appended; a present one loses only its first entry; the other generation runs the same code at client-website/src/App.tsx:287-307 |
| AppSession.ToggleSlotTwiceRestores | app/src/App.jsx:328-348 | toggling an unselected slot twice gives the list back |
| AppSession.ToggleRemovesOnlyFirstMatch | app/src/App.jsx:328-348 | a slot listed twice is still selected after one toggle |
| AppSession.ToggleSlotFlipsMembership | client-website/src/App.tsx:287-307 | on a repeat-free list the toggle flips that slot's membership only and keeps the list repeat-free |
| AppSession.Rehydrate | app/src/App.jsx:248-263 | the catalogue courses whose number was saved, without repeats, as a subsequence of the catalogue (catalogue order) |
| AppSession.RehydrateRestoresSelection | client-website/src/App.tsx:196-211 | reloading from the persisted numbers gives back the selection when catalogue numbers are distinct |
| AppSession.SelectSurvivesReload | client-website/src/App.tsx:248-264 | after selecting a catalogue course, a reload finds the old selection plus that course |
| AppSession.Session.HandleCourseSelect | app/src/App.jsx:289-305 | adds or removes the one course and persists the numbers of the new selection; the other generation runs the same code at client-website/src/App.tsx:248-264 |
| AppSession.Session.HandleClearAllSelectedCourses | app/src/App.jsx:310-314 | the selection is empty and the saved entry removed; the other generation runs the same code at client-website/src/App.tsx:269-273 |
| AppSession.Session.LoadSelectedCourses | app/src/App.jsx:248-263 | nothing changes without a saved entry; otherwise the selection is rehydrated; the other generation runs the same code at client-website/src/App.tsx:196-211 |
| AppSession.Session.ReceiveCourses | app/src/App.jsx:116-124 | the stored catalogue is the triple-deduplication (`filterUniqueCourses`) of the parsed rows, an order-preserving subsequence of them, and the saved selection is applied to it |
| AppSession.Session.ToggleSearchTimeSlot | app/src/App.jsx:328-348 | only the searched slots change, by the toggle |
| Dedup.FindTriple | app/src/App.jsx:236-240 | the first row with the course's triple, or -1 exactly when none has it |
| Dedup.FilterUniqueCourses | app/src/App.jsx:232-243 | an order-preserving subsequence made of rows that are the first of their triple; the other generation runs the same code at client-website/src/api/NSYSUCourseAPIOld.ts:17-26 |
| Dedup.EveryTripleKept | client-website/src/api/NSYSUCourseAPIOld.ts:17-26 | every triple of the input is represented in the output |
| Dedup.UniqueTriples | client-website/src/api/NSYSUCourseAPIOld.ts:17-26 | no two output rows share a triple |
| Dedup.DistinctTriplesUnchanged | app/src/App.jsx:232-243 | a catalogue without repeated triples is left as it is |
| Dedup.FilterUniqueIdempotent | app/src/App.jsx:232-243 | deduplicating twice is deduplicating once |
| NewApi.MapNewApiToOldApiFormat | client-website/src/utils/mapNewApiToOldApiFormat.ts:10-39 | the number is the id; the class is one of the four labels, the given one when known; 必/選, 1/0 and 是/'' follow their flags; the name is a first line of the given name |
| NewApi.MappedCountsReadBack | client-website/src/utils/mapNewApiToOldApiFormat.ts:24-27 | the four counts are decimal renderings that read back as the numbers |
| NewApi.MappedDaysAreClassTime | client-website/src/utils/mapNewApiToOldApiFormat.ts:30-36 | Monday to Sunday are `classTime[0]` to `classTime[6]` |
| NewApi.MappedProgramsJoinTags | client-website/src/utils/mapNewApiToOldApiFormat.ts:38 | `Programs` is the tags joined by a comma and a space |
| NewApi.FirstLine | client-website/src/utils/mapNewApiToOldApiFormat.ts:19 | the text before the first line feed |
| NewApi.FirstLineOfLines | client-website/src/utils/mapNewApiToOldApiFormat.ts:19 | a multi-line name keeps only its first line |
| NewApi.SampleNameKeepsFirstLine | client-website/src/utils/mapNewApiToOldApiFormat.ts:19 | the bilingual sample maps to 教育心理學 |
| NewApi.OrEmpty | client-website/src/utils/mapNewApiToOldApiFormat.ts:10-11 | a missing text becomes the empty string |
| NewApi.FirstWithId | client-website/src/api/NSYSUCourseAPI.ts:49 | the first course with that id |
| NewApi.UniqueById | client-website/src/api/NSYSUCourseAPI.ts:48-50 | ids are distinct, every input id is kept, each course is the first with its id, and the ids come in the order of their first appearance in the input |
| NewApi.UniqueByIdKeepsDistinct | client-website/src/api/NSYSUCourseAPI.ts:48-50 | a list with distinct ids comes back unchanged |
| Versions.GroupKey | client-website/src/api/NSYSUCourseAPIOld.ts:59-60 | the leftmost `all_classes_(\d{3})([123])_` match as `YYY-S`, or none exactly when there is no match |
| Versions.GroupByKey | app/src/App.jsx:79-93 | the grouping loop ends with the grouping of the whole listing |
| Versions.GroupFilesWellFormed | client-website/src/api/NSYSUCourseAPIOld.ts:51-61 | groups have distinct keys, none is empty, and each holds eligible files of its key |
| Versions.EveryEligibleFileGrouped | client-website/src/api/NSYSUCourseAPIOld.ts:51-61 | every eligible file lands in the group of its key |
| Versions.IneligibleDropped | client-website/src/api/NSYSUCourseAPIOld.ts:51-61 | a name without `.csv` or without the key pattern is in no group |
| Versions.LatestOf | client-website/src/api/NSYSUCourseAPIOld.ts:62-76 | the first file after a stable descending sort: the earliest file with the greatest name |
| Versions.GetAvailableSemesters | client-website/src/api/NSYSUCourseAPIOld.ts:45-76 | an empty listing gives none; otherwise the i-th result is the latest file of the i-th key group of `GroupFiles`, which opens a group when its key first appears in the listing |
| Versions.OnePerKey | client-website/src/api/NSYSUCourseAPIOld.ts:45-76 | the returned files are eligible with distinct keys, and each eligible file's key is represented by a file at least as great |
| Versions.LoadVersions | app/src/App.jsx:76-107 | throws exactly when no file is eligible; otherwise the available list is the per-key latest list after the in-place descending sort, the opened file is its first and is the greatest eligible file |
| Versions.SortByNameDesc | app/src/App.jsx:103-105 | `sort` by descending name: a permutation in descending name order whose first file is the earliest with the greatest name |
| Versions.LatestOverall | client-website/src/App.tsx:115-117 | the greatest per-key latest file is the greatest eligible file |
| Versions.ConvertVersion | app/src/App.jsx:199-225 | a name without a match stays as it is; otherwise a numeric year, 上/下/暑 and the date; the other generation runs the same code at client-website/src/App.tsx:165-191 |
| Versions.ConvertVersionOfFileName | app/src/App.jsx:199-225 | a well-formed file name shows its year without leading zeros, the semester word and the date |
| RequiredCourses.Merge | client-website/src/components/SelectorSetting/RequiredCourse.tsx:78-87 | supplied keys override, all other keys stay |
| RequiredCourses.Matching | client-website/src/components/SelectorSetting/RequiredCourse.tsx:92-107 | an order-preserving subsequence holding exactly the courses that meet every condition |
| RequiredCourses.NoActiveConditionKeepsAll | client-website/src/components/SelectorSetting/RequiredCourse.tsx:96-107 | with every condition empty the whole catalogue is shown, electives included |
| RequiredCourses.ActiveConditionsOnlyRequired | client-website/src/components/SelectorSetting/RequiredCourse.tsx:105 | with some non-empty condition every shown course is 必 and equal on every non-empty key; the other generation runs the same code at app/src/components/SelectorSetting/RequiredCourse.jsx:63-69 |
| RequiredCourses.EmptyConditionIgnored | client-website/src/components/SelectorSetting/RequiredCourse.tsx:104 | an empty condition is the same as no condition on that field |
| RequiredCourses.NewConditionNarrows | client-website/src/components/SelectorSetting/RequiredCourse.tsx:96-107 | a condition on a new field filters the previous result by that condition alone |
| RequiredCourses.RequiredCourse.Mount | client-website/src/components/SelectorSetting/RequiredCourse.tsx:51-59 | saved conditions, when present, replace the empty ones and are applied |
| RequiredCourses.RequiredCourse.ApplyFilters | app/src/components/SelectorSetting/RequiredCourse.jsx:59-69 | the shown list becomes the catalogue filtered by the conditions |
| RequiredCourses.RequiredCourse.HandleRequiredCourseFilterChange | app/src/components/SelectorSetting/RequiredCourse.jsx:47-54 | the conditions are merged, applied and saved; the other generation runs the same code at client-website/src/components/SelectorSetting/RequiredCourse.tsx:61-87 |
| HowToUse.Next | app/src/components/SelectorSetting/SelectedCourse/HowToUseModal.jsx:51-59 | on the last page the dialog closes and the page stays; elsewhere one page forward, never past the last |
| HowToUse.Prev | app/src/components/SelectorSetting/SelectedCourse/HowToUseModal.jsx:65-69 | one page back, never before the first |
| HowToUse.PrevUndoesNext | client-website/src/components/SelectorSetting/SelectedCourse/HowToUseModal.tsx:63-81 | next then previous returns to the page before the last page |
| HowToUse.NextUndoesPrev | client-website/src/components/SelectorSetting/SelectedCourse/HowToUseModal.tsx:63-81 | previous then next returns to the page after the first page |
| HowToUse.WalkThrough | client-website/src/components/SelectorSetting/SelectedCourse/HowToUseModal.tsx:63-81 | `total - 1` presses of next reach the last page, and the next press closes |
| HowToUse.HowToUseModal.StepIndex | client-website/src/components/SelectorSetting/SelectedCourse/HowToUseModal.tsx:86 | the shown step index is within the step list |
| HowToUse.HowToUseModal.PrevDisabled | client-website/src/components/SelectorSetting/SelectedCourse/HowToUseModal.tsx:113 | the previous button is disabled exactly where pressing it (`prevPage`) would leave the page unchanged |
| HowToUse.HowToUseModal.NextLabel | client-website/src/components/SelectorSetting/SelectedCourse/HowToUseModal.tsx:118 | the next button reads 完成 exactly where pressing it (`nextPage`) closes the dialog, and 下一頁 exactly where it turns to the next page |
| HowToUse.HowToUseModal.constructor | client-website/src/components/SelectorSetting/SelectedCourse/HowToUseModal.tsx:55-58 | the dialog starts on page 1 |
| HowToUse.HowToUseModal.NextPage | app/src/components/SelectorSetting/SelectedCourse/HowToUseModal.jsx:51-59 | the page moves as `Next` says and stays within the steps; the other generation runs the same code at client-website/src/components/SelectorSetting/SelectedCourse/HowToUseModal.tsx:63-75 |
| HowToUse.HowToUseModal.PrevPage | app/src/components/SelectorSetting/SelectedCourse/HowToUseModal.jsx:65-69 | the page moves as `Prev` says and stays within the steps |
| HowToUse.NewOlderPageDialog | app/src/components/SelectorSetting/SelectedCourse/HowToUseModal.jsx:43-46 | the older dialog starts on page 1 of the seven export steps |
| CourseBlocks.LetterPrefixAppend | app/src/components/ScheduleTable/CourseBlock.jsx:65 | text after a non-letter does not change the leading letters |
| CourseBlocks.SingleLineKeepsLetterPrefix | app/src/components/ScheduleTable/CourseBlock.jsx:65 | on one line the replacement leaves exactly the leading ASCII letters |
| CourseBlocks.ToInt32 | app/src/components/ScheduleTable/CourseBlock.jsx:67 | a 32-bit two's complement value congruent to the input |
| CourseBlocks.BaseColor | app/src/components/ScheduleTable/CourseBlock.jsx:71-72 | `baseColor` lies in `[0x808080, 0xFFFFFF]` and is made of three bytes, each at least 0x80 |
| CourseBlocks.ToHexReadsBack | app/src/components/ScheduleTable/CourseBlock.jsx:74 | `toString(16)` writes hex digits that read back as the number |
| CourseBlocks.ColorOf | app/src/components/ScheduleTable/CourseBlock.jsx:74 | `#` and six hex digits that read back as `baseColor`, two per byte, each byte's high digit at least 8; the other generation runs the same code at client-website/src/components/ScheduleTable/CourseBlock.tsx:79-82 |
| CourseBlocks.ZeroHashIsGrey | app/src/components/ScheduleTable/CourseBlock.jsx:63-74 | a zero hash gives `#808080` |
| CourseBlocks.SameLetterPrefixSameColor | app/src/components/ScheduleTable/CourseBlock.jsx:65 | single-line codes with the same leading letters get the same colour; the other generation runs the same code at client-website/src/components/ScheduleTable/CourseBlock.tsx:73 |
| CourseBlocks.NoLetterPrefixIsGrey | client-website/src/components/ScheduleTable/CourseBlock.tsx:71-82 | a code with no leading letter gets `#808080` |
| CourseBlocks.GetHashColor | app/src/components/ScheduleTable/CourseBlock.jsx:62-75 | the hash loop yields the colour of the code; the other generation runs the same code at client-website/src/components/ScheduleTable/CourseBlock.tsx:70-83 |
| CourseBlocks.MainColorOnlyOnHover | client-website/src/components/ScheduleTable/CourseBlock.tsx:87-92 | a block shows the main colour exactly while hovered, and its hash colour otherwise |
| CourseBlocks.SameDepartmentCodeSameColor | app/src/components/ScheduleTable/CourseBlock.jsx:80-83 | two courses on single lines whose numbers share their leading letters get the same colour when not hovered, whatever their single-line names |
| CourseBlocks.HandleDeleteCourse | app/src/components/ScheduleTable/CourseBlock.jsx:52-55 | the course leaves the selection and nothing else changes; the other generation runs the same code at client-website/src/components/ScheduleTable/CourseBlock.tsx:60-63 |
| SelectedCourses.Clamp | app/src/components/SelectorSetting/SelectedCourse.jsx:106-110 | a number is moved into 0..100 (kept when inside); `NaN` stays `NaN` |
| SelectedCourses.ClampWeightOfRendering | app/src/components/SelectorSetting/SelectedCourse.jsx:104-117 | a weight in 0..100 typed in decimal is stored unchanged |
| SelectedCourses.ExportData | app/src/components/SelectorSetting/SelectedCourse.jsx:134-144 | throws exactly when an added number belongs to no selected course; otherwise one `+` row per added number, in set order, with its name and weight or 0 |
| SelectedCourses.FindByNumber | app/src/components/SelectorSetting/SelectedCourse.jsx:135-139 | a selected course with that number, or none exactly when no selected course has it |
| SelectedCourses.FindById | app/src/components/SelectorSetting/SelectedCourse.jsx:200-203 | the first entry whose id is that number string; throws only when a `null` is reached first |
| SelectedCourses.Matched | app/src/components/SelectorSetting/SelectedCourse.jsx:197-199 | throws exactly when a test throws; otherwise the catalogue courses the list names, in catalogue order |
| SelectedCourses.ImportPlan | app/src/components/SelectorSetting/SelectedCourse.jsx:191-213 | a syntax error or a non-array list throws; otherwise each named catalogue course is paired with its entry's weight text |
| SelectedCourses.SelectAll | app/src/components/SelectorSetting/SelectedCourse.jsx:204 | selecting courses in turn adds exactly them and keeps the selection's order and repeat-freedom |
| SelectedCourses.Reweigh | app/src/components/SelectorSetting/SelectedCourse.jsx:205 | weights stay in range, the plan's numbers get weights and every other weight stays |
| SelectedCourses.ReweighLastStep | app/src/components/SelectorSetting/SelectedCourse.jsx:200-206 | a course's final weight comes from the last step naming its number |
| SelectedCourses.MatchedExported | app/src/components/SelectorSetting/SelectedCourse.jsx:197-199 | importing an exported list matches exactly the catalogue courses whose numbers it holds |
| SelectedCourses.ExportThenImport | app/src/components/SelectorSetting/SelectedCourse.jsx:134-206 | importing the exported list selects exactly the catalogue courses whose numbers were added, in catalogue order, each with its exported weight |
| SelectedCourses.ExportedWeight | app/src/components/SelectorSetting/SelectedCourse.jsx:141-143 | an exported weight reads back as the stored weight, or 0 when none was stored |
| SelectedCourses.SelectedCourse.SyncAddedSelectedCourses | app/src/components/SelectorSetting/SelectedCourse.jsx:58-76 | only removes: the added set keeps, in order, the numbers that still belong to a selected course, and is saved |
| SelectedCourses.SelectedCourse.Mount | app/src/components/SelectorSetting/SelectedCourse.jsx:28-47 | a saved added list becomes the added set, deduplicated and then synchronised with the selection; saved weights are adopted as they are; the state stays valid exactly when those weights are in range |
| SelectedCourses.Restored | app/src/components/SelectorSetting/SelectedCourse.jsx:34-41 | the set mounted from a saved list holds exactly the saved numbers that are selected, repeat-free, as a subsequence of the deduplicated saved list |
| SelectedCourses.SaveThenRestore | app/src/components/SelectorSetting/SelectedCourse.jsx:28-76 | mounting from what the component saved gives the same added set back |
| SelectedCourses.SelectedCourse.HandleCourseAddedSelect | app/src/components/SelectorSetting/SelectedCourse.jsx:83-97 | exactly that course's number is added or deleted, then saved |
| SelectedCourses.SelectedCourse.HandleCourseWeightChange | app/src/components/SelectorSetting/SelectedCourse.jsx:104-117 | the clamped weight is stored under the course's number, every other weight stays, then saved |
| SelectedCourses.SelectedCourse.HandleExportAddedSelectedCourses | app/src/components/SelectorSetting/SelectedCourse.jsx:122-185 | exports when every added number is selected, then shows the script embedding the rows; otherwise nothing changes |
| SelectedCourses.SelectedCourse.HandleImportCode | app/src/components/SelectorSetting/SelectedCourse.jsx:191-213 | reports success exactly when the plan can be computed, and then applies it; a failure changes nothing |
| SelectedCourses.SelectedCourse.ApplyPlan | app/src/components/SelectorSetting/SelectedCourse.jsx:200-206 | each step selects its course, then stores its weight |
| ImportDialog.CaptureUntil | client-website/src/components/SelectorSetting/SelectedCourse/ImportModal.tsx:51-53 | none exactly when no close follows a marker; otherwise the text from the first marker's `[` to the first close after it |
| ImportDialog.CaptureUntilFacts | client-website/src/components/SelectorSetting/SelectedCourse/ImportModal.tsx:51-53 | a capture runs from `[` to `]`, contains no close, and sits between the first marker and a close |
| ImportDialog.CaptureFramed | client-website/src/components/SelectorSetting/SelectedCourse/ImportModal.tsx:51-53 | the corrected capture finds any line-feed-free list framed as the export script frames it |
| ImportDialog.ExportScriptCaptured | client-website/src/components/SelectorSetting/SelectedCourse/ImportModal.tsx:51-53 | the corrected capture of an export script is exactly the list it embeds |
| ImportDialog.ScriptRoundTrip | client-website/src/components/SelectorSetting/SelectedCourse/ImportModal.tsx:51-59 | with the corrected capture (`];` and a line feed), pasting the whole exported script and importing selects the exported catalogue courses with their weights. The script is the older page's export (app/src/components/SelectorSetting/SelectedCourse.jsx:146-162), the only producer of `exportClass = `; the line-feed fix relies on its layout |
| ImportDialog.ScriptRoundTripAsWritten | client-website/src/components/SelectorSetting/SelectedCourse/ImportModal.tsx:51-59 | with the expression as written, the same round trip holds when no selected course's number or name contains `];` |
| ImportDialog.CleanExportCaptured | client-website/src/components/SelectorSetting/SelectedCourse/ImportModal.tsx:51-53 | the expression as written captures exactly the exported list when no exported id, name or mark contains `];` |
| ImportDialog.CaptureAsWrittenExact | client-website/src/components/SelectorSetting/SelectedCourse/ImportModal.tsx:51-53 | for exported rows, the expression as written captures the list exactly when no id or name contains `];` |
| ImportDialog.StringifyCloseFree | client-website/src/components/SelectorSetting/SelectedCourse/ImportModal.tsx:51-53 | `JSON.stringify` writes `];` only where one of the strings it writes (keys included) holds one |
| ImportDialog.CaptureAsWrittenLosesList | client-website/src/components/SelectorSetting/SelectedCourse/ImportModal.tsx:51-53 | the expression as written never hands over a list in which some id or name contains `];` |
| ImportDialog.CaptureAsWrittenExample | client-website/src/components/SelectorSetting/SelectedCourse/ImportModal.tsx:51-53 | the course named `Arrays[];` is cut short by the expression as written |
| ImportDialog.ImportModal.constructor | client-website/src/components/SelectorSetting/SelectedCourse/ImportModal.tsx:30-33 | the dialog starts with no text and `isValid` true |
| ImportDialog.ImportModal.HandleCodeChange | client-website/src/components/SelectorSetting/SelectedCourse/ImportModal.tsx:39-41 | only the pasted text changes |
| ImportDialog.ImportModal.HandleImport | client-website/src/components/SelectorSetting/SelectedCourse/ImportModal.tsx:46-67 | the callback gets the capture of the expression as written, or is not called when it finds nothing; the dialog closes exactly when it returns true; `isValid` can only become false |

## Left out

- CourseDetective.CategoryOfId: ids that name a key inherited from `Object.prototype` are treated as unknown, and `CourseDetective.UnknownIdAddsNothing` states that such an element appends nothing. The source looks the id up on an ordinary object literal (`id in this.filterConditions` and `this.filterConditions[id]` at client-website/src/components/SelectorSetting/CourseDetective.tsx:163-169, and `this.filterConditions[element.id]` at app/src/components/SelectorSetting/CourseDetective.jsx:136-137), so these ids reach inherited members. A saved order holding `constructor` or `toString` therefore appends every unplaced pool course in the source, since `Object(course)` and `"[object Undefined]"` are truthy. With `valueOf`, `hasOwnProperty` or `__proto__`, the call throws a `TypeError`. The model covers only the table's own keys, because the element ids the app writes are the eleven defaults.
- Rendering, styling, drag-and-drop (`arrayMove`), the network fetches and the response-status branches are not modelled. They only lay out or fetch data.
- `localStorage` is not modelled as a store. Each component has a field holding the parsed saved value, or `None` when absent. A saved text that `JSON.parse` rejects is not modelled.
- React's `setState` batching, asynchrony and lifecycle are not modelled. Each handler is one sequential transition, and a `componentDidUpdate` that always follows a handler is folded into it.
- Object identity is not modelled: a `Set<Course>` holds values, and two equal course records are one course.
- FilterRow.SelectOption: `handleOptionSelect` copies the row only shallowly (client-website/src/components/SelectorSetting/AllCourse/ListInformation/AdvancedFilter/FilterRow.tsx:206-213), so it deletes or sets the key inside the `activeOptions` object that the previous `advancedFilters` state shares. On the first edit after a mount with nothing saved, that object belongs to the module constant `DEFAULT_ADVANCE_FILTER` (client-website/src/components/SelectorSetting/AllCourse.tsx:58), so the default filters change too. The model builds a new options map and does not capture this mutation of the old state or of the defaults.
- `toLowerCase` is modelled on the letters A–Z only.
- String order for `sort()` is modelled as code-point order. It equals JavaScript's UTF-16 code-unit order for characters below U+10000. Characters above U+FFFF are outside the model: there `sort()` and the `charCodeAt` loop of the colour hash see two code units where the model sees one character.
- Versions.LatestOf, Versions.GetAvailableSemesters, Versions.SortByNameDesc, Versions.LoadVersions and Versions.LatestOverall: `localeCompare` (client-website/src/api/NSYSUCourseAPIOld.ts:75, app/src/App.jsx:96 and 103-105, client-website/src/App.tsx:115-117) is replaced by code-point order. `localeCompare` is a locale collation, and it differs from code-point order on letter case (`"a"` before `"B"`) and on punctuation (`_` before `.`). So for `all_classes_1131_20240801.csv` beside `all_classes_1131_20240801_1.csv`, the page opens the first and the model picks the second. The latest file the model chooses may therefore differ from the page's. The Versions proofs use the order only through the strict-total-order facts `JsStrings.LexLessTotal`, `LexLessTransitive`, `LexLessIrreflexive` and `LexLessAsymmetric`, which any collation that is a strict total order also satisfies.
- `Math.random` is not modelled. The shuffle takes an oracle of draws, and only the permutation property is proved.
- Clipboard writes, Google Analytics and the window scroll, touch and resize handlers are not modelled.
- SelectorSetting.CalculateTotalHours: the credit total of `calculateTotalCreditsAndHours` is left out, because it is a floating-point `parseFloat` sum. Only the hour total is modelled.
- SelectedCourses.Clamp: the `NaN` path is modelled only as "stored unparsed". What the page then displays is not modelled.
- JsonText.ParseStringify: the JSON model covers null, booleans, integers, strings, arrays and objects. Fractions, exponents and surrogate-pair escapes are not modelled.
- FilterRow.SetMode: requires the row to exist. On a missing row the source stores the partial row `{filterLogic: mode}` (FilterRow.tsx:140-150), which the complete row record cannot hold.
- FilterRow.SetText: requires the row to exist. On a missing row the source stores the partial row `{value}` (FilterRow.tsx:230-245), which the complete row record cannot hold.
- FilterRow.ToggleActive: requires the row to exist. On a missing row the source stores the partial row `{active: true}` (FilterRow.tsx:251-263), which the complete row record cannot hold.
- AllCourseTsx.ApplyAdvancedFilters: rows are complete `{active, value, filterLogic, activeOptions}` records, as the TypeScript type declares. Partial rows from older saved data are not modelled.
- The client website's own configuration file is not part of this model. Its timetable is taken to be the same fifteen periods and seven days as app/src/config.jsx, and its main colour the same `#009e96` (`CourseBlocks.MainColor`).
- HowToUse.HowToUseModal.constructor: the newer page's step count comes from a constant that is not part of this model, so it is a parameter.
- ImportDialog.ImportModal.HandleImport: the submit callback is a function parameter returning an outcome. Its effects on the page are modelled by `SelectedCourses.SelectedCourse.HandleImportCode`.
- The export script's form-filling body runs on another site and is not modelled. Only its embedding of the list is.
- Versions.LoadVersions: `switchVersion` and the CSV parse (Papa.parse) are left out. The catalogue arrives already parsed.
- SelectedCourses.SelectedCourse.constructor: the saved added list and weights are constructor parameters; reading them from `localStorage` is not modelled. `componentDidMount` adopting them is `SelectedCourses.SelectedCourse.Mount`.
- CourseBlocks.SameDepartmentCodeSameColor: stated only for numbers and names without line terminators. The replace's `.` stops at a line break, and the global replace keeps the leading letters of every later line, so a multi-line name also changes the colour (`CourseBlocks.KeepLetterPrefixes` models that).
- NewApi.MapNewApiToOldApiFormat: requires at least seven `classTime` entries, one per weekday, as the API sends them. A shorter list would put `undefined` in a day field, which the all-string course record cannot hold.
- Versions.LoadVersions: stability of the descending sort is stated through its first file (`IsLatest`), the earliest with the greatest name; the order of other files with equal names is not stated.

## Findings

| source | as written | input that shows it | evidently intended | confidence | as-written member | corrected member |
|---|---|---|---|---|---|---|
| client-website/src/components/SelectorSetting/SelectedCourse/ImportModal.tsx:51-53 | the lazy `/exportClass = (\[.*?]);/s` stops at the first `];` after the marker | an exported course whose name contains `];`, e.g. `Arrays[];` | capture the whole list the export script embeds, which ends at `];` followed by a line feed in the older page's export script (app/src/components/SelectorSetting/SelectedCourse.jsx:146-162), the only producer of `exportClass = `; `JSON.stringify` writes no line feed inside the list | high (not executed) | ImportDialog.CaptureAsWrittenLosesList | ImportDialog.ExportScriptCaptured |
| client-website/src/components/SelectorSetting/AllCourse/ListInformation/AdvancedFilter/FilterRow.tsx:156-223 | `handleSelectAll` reads `advancedFilters[filterName].active` and `handleOptionSelect` reads `selected.activeOptions[option]` without a guard | the empty `advancedFilters` that client-website/src/components/SelectorSetting/AllCourse.tsx:65-73 sets when only the older page's `basicFilter` is saved; select all or clicking any option then throws a `TypeError` | read the row as rendered (`advancedFilters[filterName] \|\| {...}`), as `handleDeselectAll` already does through `?.`/`??` | medium (not executed) | FilterRow.UpgradedFiltersThrow | FilterRow.FixedHandlersAgree |
