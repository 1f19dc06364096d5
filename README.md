# Offline report card: derived values and selection state

This project models the part of the exam report card that computes things and
not only displays them. It covers two components.

The subject card (`components/SubjectCard.tsx`) does four things:

- It filters the question table by status and by chapter.
- It tallies the question list per result.
- It builds the chapter dropdown: a count per chapter, and the chapter names in
  sorted order.
- It sums the chapter buckets (strong, good, improve) into subject totals. When
  those sums have a total of zero, it uses the question-list tallies instead.
  From whichever counts it shows, it derives the attempt rate. Each chapter
  poster shows its accuracy.

The card keeps three pieces of selection state: whether the table is open, the
status filter and the chapter filter. Poster clicks, the two dropdowns and the
show/hide button change them.

The report page (`App.tsx`) keeps the active subject tab. It looks up that
subject's data and falls back to the first subject when no name matches.
Switching tabs remounts the subject card, because the card is keyed by the
subject's name.

Modules:

- `Types` holds the record shapes of `types.ts` as datatypes.
- `JsSort` holds the order that `Array.prototype.sort()` uses for strings, an
  insertion sort, and a proof that the sorted list of a set of keys is unique.
- `QuestionTable` holds the filter, the status tallies, `chapterCounts` and
  `uniqueChapters`.
- `ChapterAggregate` holds the bucket sums, the fallback, and the exact
  `Math.round` percentages.
- `SubjectCard` holds the class `CardSelection`, whose three fields are the
  card's state and whose methods are the user actions.
- `App` holds the subject lookup, the overview threshold, and the class
  `ReportView`: the active tab and the mounted card.
- `ReportData` holds worked values taken from the Biology subject in
  `constants.ts`.

Two JavaScript truthiness rules are modelled exactly:

- A chapter filter equal to the empty string filters nothing, just like `null`.
- A question whose chapter is absent or empty is counted under no chapter.

## Model

| member | source | states |
|---|---|---|
| `QuestionTable.FilterQuestions` | components/SubjectCard.tsx:294-298 | a question is a visible row iff it is in the list, its status matches (filter All or equal result) and its chapter matches (filter null or empty, or equal chapter); the rows are an order-preserving subsequence of the questions, as many as there are matching questions, so a repeated question is kept every time |
| `QuestionTable.FilterIsLongestMatchingSubsequence` | components/SubjectCard.tsx:294-298 | any ordered selection of matching questions as long as the count of matching questions is exactly the table's rows, so the contract of `FilterQuestions` fixes its result |
| `QuestionTable.CountMatching` | components/SubjectCard.tsx:294-298 | the number of questions passing both filters, counted with repetition; the length of the table, specified by `FilterQuestions` |
| `QuestionTable.NoFilterShowsAll` | components/SubjectCard.tsx:294-298 | with status All and no chapter filter the table shows exactly the question list |
| `QuestionTable.FiltersCompose` | components/SubjectCard.tsx:294-298 | both filters together equal the status filter's rows narrowed by the chapter filter, and equally the chapter filter's rows narrowed by the status filter |
| `QuestionTable.StatusFilterLength` | components/SubjectCard.tsx:302-304 | the length of the list filtered on one result is the number of questions with that result |
| `QuestionTable.ResultCountsPartition` | components/SubjectCard.tsx:300-305 | the Correct, Incorrect and Unattempted counts add up to the number of questions, because every question has exactly one of the three results |
| `QuestionTable.QuestionArrayCounts` | components/SubjectCard.tsx:300-305 | All is the list length, each status entry is the number of questions with that result, and the three status entries add up to All |
| `QuestionTable.ChapterCounts` | components/SubjectCard.tsx:308-313 | `chapterCounts`, the reduce into a map from chapter to count; specified by `ChapterCountsSpec` |
| `QuestionTable.ChapterKeyOrder` | components/SubjectCard.tsx:315 | `Object.keys(chapterCounts)`, the chapters in order of first occurrence; specified by `ChapterCountsSpec` |
| `QuestionTable.UniqueChapters` | components/SubjectCard.tsx:315 | `uniqueChapters`, the keys sorted; specified by `UniqueChaptersSpec` |
| `QuestionTable.ChapterCountsSpec` | components/SubjectCard.tsx:308-313 | the chapter map has a key exactly for each non-empty chapter name that some question carries, mapped to the number of questions in that chapter; the key order lists each key once |
| `QuestionTable.UniqueChaptersSpec` | components/SubjectCard.tsx:315 | the dropdown options are strictly sorted, duplicate-free, exactly the keys of the chapter map, and exactly the non-empty chapters some question carries |
| `QuestionTable.ChapterRowsMatchCount` | components/SubjectCard.tsx:294-313 | choosing a dropdown chapter (status All) shows as many rows as the count the dropdown computed for it |
| `QuestionTable.ChapterFilterLength` | components/SubjectCard.tsx:294-298 | a non-empty chapter filter keeps exactly the questions of that chapter, counted |
| `QuestionTable.DropdownTotal` | components/SubjectCard.tsx:308-315 | the sum of the dropdown chapters' counts; specified by `DropdownTotalSpec` |
| `QuestionTable.DropdownTotalSpec` | components/SubjectCard.tsx:308-315 | the per-chapter counts over the dropdown's chapters add up to the list length minus the questions without a chapter, so at most the list length |
| `JsSort.Sort` | components/SubjectCard.tsx:315 | sorting the duplicate-free keys gives a strictly sorted permutation of them |
| `JsSort.InsertSorted` | components/SubjectCard.tsx:315 | inserting a new key into a strictly sorted list keeps it strictly sorted |
| `JsSort.StrictlySortedUnique` | components/SubjectCard.tsx:315 | two strictly sorted lists with the same elements are equal, so the dropdown order does not depend on the key order or on the sort algorithm |
| `JsSort.BeforeTotal` | components/SubjectCard.tsx:315 | the default string order ranks any two different strings one way or the other |
| `JsSort.BeforeTransitive` | components/SubjectCard.tsx:315 | the default string order is transitive |
| `JsSort.BeforeAsymmetric` | components/SubjectCard.tsx:315 | no two strings each sort before the other |
| `ChapterAggregate.AllChapters` | components/SubjectCard.tsx:318-322 | `allChapters`, the strong, good and improve buckets in that order; specified by `BucketTotals` and `BucketOrderIrrelevant` |
| `ChapterAggregate.TrueCounts` | components/SubjectCard.tsx:324-329 | `trueCounts`, the reduce over the chapters from zero counts; specified by `TrueCountsAreFieldSums` and `TrueCountsAppend` |
| `ChapterAggregate.TrueCountsAppend` | components/SubjectCard.tsx:324-329 | the reduce over two lists of chapters one after the other is the field-wise sum of the two reduces |
| `ChapterAggregate.TrueCountsAreFieldSums` | components/SubjectCard.tsx:318-329 | each field of `trueCounts` equals the plain sum of that field over the chapters |
| `ChapterAggregate.BucketTotals` | components/SubjectCard.tsx:318-329 | the subject totals are the sum of the strong, good and improve buckets' totals |
| `ChapterAggregate.BucketOrderIrrelevant` | components/SubjectCard.tsx:318-322 | listing the buckets in the reverse order gives the same totals |
| `ChapterAggregate.AggregatePreservesIdentity` | components/SubjectCard.tsx:324-329 | when every chapter satisfies correct + incorrect + unattempted == total, so do the subject totals |
| `ChapterAggregate.AggregatePreservesWellFormed` | components/SubjectCard.tsx:324-329 | well-formed chapters (identity holds, no negative part) give well-formed totals with 0 <= unattempted <= total |
| `ChapterAggregate.QuestionCounts` | components/SubjectCard.tsx:331-336 | the fallback counts are well-formed, their total is the number of questions and each part is that list's per-result count |
| `ChapterAggregate.DisplayCounts` | components/SubjectCard.tsx:331-336 | `displayCounts`, the chapter sums unless their total is zero, then the question tallies; specified by `DisplayCountsSource` and `DisplayCountsWellFormed` |
| `ChapterAggregate.DisplayCountsSource` | components/SubjectCard.tsx:331-336 | when the chapter sums have a positive total they are shown; otherwise the shown total is the number of questions and the parts are the per-result counts |
| `ChapterAggregate.DisplayCountsWellFormed` | components/SubjectCard.tsx:331-336 | with well-formed chapter data the shown counts are well-formed whichever source they come from |
| `ChapterAggregate.RoundedPercent` | components/SubjectCard.tsx:340 | the result r satisfies r - 1/2 <= 100 * part / whole < r + 1/2, which is `Math.round` of the exact ratio |
| `ChapterAggregate.RoundedPercentUnique` | components/SubjectCard.tsx:340 | only one integer satisfies that bracket, so the rounding is determined by it |
| `ChapterAggregate.RoundedPercentBounds` | components/SubjectCard.tsx:340 | a part between 0 and the whole gives 0..100; none gives 0 and all gives 100 |
| `ChapterAggregate.RoundedPercentMonotone` | components/SubjectCard.tsx:340 | a larger part never gives a smaller percentage |
| `ChapterAggregate.AttemptedCount` | components/SubjectCard.tsx:339 | `attemptedCount`, the shown total minus the unattempted; specified through `AttemptRate` |
| `ChapterAggregate.AttemptRate` | components/SubjectCard.tsx:339-340 | 0 when the total is not positive; otherwise the rounded percentage of attempted (total - unattempted) questions, within 0..100 when 0 <= unattempted <= total |
| `ChapterAggregate.ChapterAccuracy` | components/SubjectCard.tsx:17 | 0 for a chapter with no questions; otherwise the rounded percentage correct, within 0..100 when 0 <= correct <= total |
| `ChapterAggregate.SubjectAttemptRateBounds` | components/SubjectCard.tsx:331-340 | with well-formed chapter data the card's attempt rate lies in 0..100 |
| `ChapterAggregate.AttemptRateMonotone` | components/SubjectCard.tsx:339-340 | with the same total, more unattempted questions never raise the attempt rate |
| `SubjectCard.CardSelection.constructor` | components/SubjectCard.tsx:239-241 | a mounted card starts with the table closed, status All and no chapter filter |
| `SubjectCard.CardSelection.SelectChapter` | components/SubjectCard.tsx:342-352 | clicking the active chapter clears the chapter filter and leaves the table as it was; clicking any other chapter filters on it and opens the table; the status filter is unchanged; the poster's highlight flips; after selecting a non-empty chapter every visible row belongs to it |
| `SubjectCard.CardSelection.ToggleTable` | components/SubjectCard.tsx:678-679 | the button negates whether the table is shown and changes no filter |
| `SubjectCard.CardSelection.ChooseStatus` | components/SubjectCard.tsx:702 | the status dropdown, which exists only while the table is open (line 693), sets the status filter and changes nothing else; the visible rows are then exactly the questions with that status that pass the chapter filter |
| `SubjectCard.CardSelection.ChooseChapter` | components/SubjectCard.tsx:719 | the chapter dropdown, which exists only while the table is open (line 693), sets the chapter filter, with the empty option giving null, and changes nothing else; a chapter shows only its own rows, and the empty option shows every question passing the status filter |
| `SubjectCard.CardSelection.VisibleQuestions` | components/SubjectCard.tsx:294-298 | `filteredQuestions` for the card's current filters; specified by `FilterQuestions` and used in the action contracts above |
| `SubjectCard.CardSelection.IsPosterActive` | components/SubjectCard.tsx:221 | a poster is highlighted when its name is the chapter filter; specified through `SelectChapter` |
| `SubjectCard.IsWeakSubjectAccuracy` | components/SubjectCard.tsx:402 | the card flags a subject accuracy below 75; specified by `App.ThresholdsDiffer` |
| `SubjectCard.EmptyChapterFilterIsNoFilter` | components/SubjectCard.tsx:296 | an empty chapter filter (a poster with an empty name) shows the same rows as no chapter filter |
| `App.IsWeakOverallAccuracy` | App.tsx:68 | the overview flags an accuracy below 70; specified by `ThresholdsDiffer` |
| `App.ThresholdsDiffer` | App.tsx:68 | everything the overview flags as weak (below 70) the subject card flags too (below 75), and a value in [70, 75) is flagged only by the card |
| `App.FindSubject` | App.tsx:10 | nothing is found iff no subject has the name; a found subject is in the list and has the name |
| `App.FindSubjectIsFirst` | App.tsx:10 | the subject found is the one at the first index whose name matches |
| `App.ActiveSubjectData` | App.tsx:10 | the lookup is defined iff there is at least one subject; it has the active name when some subject does, and is the first subject otherwise |
| `App.ClickedTabIsShown` | App.tsx:325 | with unique names, after clicking tab i the lookup returns exactly subject i |
| `App.ExactlyOneTabActive` | App.tsx:322-328 | on a page whose active name is tab i's, with unique names, exactly tab i is styled as active |
| `App.ReportView.constructor` | App.tsx:8 | the initial active subject is the first subject's name, which needs a non-empty list, and a fresh card is mounted |
| `App.ReportView.ActiveData` | App.tsx:10 | the shown subject is one of the subjects and carries the active name whenever some subject does |
| `App.ReportView.IsTabActive` | App.tsx:328 | a tab is styled as active when its name is the active subject; specified through `SelectTab` and `ExactlyOneTabActive` |
| `App.ReportView.SelectTab` | App.tsx:325-328 | clicking tab i makes its name active and the shown subject carries that name; with unique names the shown subject is exactly subject i and exactly tab i is styled as active; a new name mounts a fresh card in its initial state, the same name keeps the card |
| `ReportData.BiologyStrongCounts` | constants.ts:85-88 | the Biology strong bucket adds up to 23 correct, 2 incorrect, 0 unattempted of 25 |
| `ReportData.BiologyGoodCounts` | constants.ts:89-92 | the Biology good bucket adds up to 14 correct, 5 incorrect, 1 unattempted of 20 |
| `ReportData.BiologyImproveCounts` | constants.ts:93-100 | the Biology improve bucket adds up to 21 correct, 28 incorrect, 5 unattempted of 54 |
| `ReportData.BiologyAttemptRate` | constants.ts:84-101 | Biology's buckets add up to 99 questions with 6 unattempted, so the attempt rate is 94 |
| `ReportData.BiologyChapterAccuracies` | constants.ts:86-94 | the Ecology poster shows 40 and the Human Physiology poster 93 |
| `ReportData.BiologyQuestionTallies` | constants.ts:110-116 | the Biology question list tallies to 5 questions: 2 correct, 2 incorrect, 1 unattempted; the Incorrect filter keeps questions 2 and 4 |
| `ReportData.TwoQuestionFilters` | components/SubjectCard.tsx:294-298 | with an incorrect Ecology question and a correct Genetics question: status Correct keeps Genetics, chapter Ecology keeps Ecology, and both together keep nothing |

## Left out

- `ChapterAggregate.AttemptRate`, `ChapterAggregate.ChapterAccuracy`: both round the exact rational 100 * part / whole. JavaScript computes `(part / whole) * 100` in floating point first, so a few exact halves round down there. For example, 29 / 200 gives 14.499999999999998 and rounds to 14, while the model gives 15.
- `JsSort.Before`: JavaScript compares strings by UTF-16 code units, and the model compares `char` values. The two orders differ only between characters beyond U+FFFF and characters in U+E000..U+FFFF.
- `QuestionTable.ChapterCounts`: it treats every chapter name as an ordinary key, while the source counts into a plain object (components/SubjectCard.tsx:310). A chapter named `__proto__` would hit the prototype setter. A chapter named after another inherited `Object.prototype` member is also affected: `constructor`, `toString`, `valueOf`, `hasOwnProperty`, `isPrototypeOf`, `propertyIsEnumerable`, `toLocaleString`, `__defineGetter__`, `__defineSetter__`, `__lookupGetter__` or `__lookupSetter__`. For these, the first read returns the inherited function, so the stored value is a string such as `"function Object() { [native code] }1"` and not a count. The key still appears in `Object.keys`, so `uniqueChapters` and the filter agree with the model. Only the stored value differs from `ChapterCountsSpec`'s count, and the source never displays that value. Integer-like names change the `Object.keys` order, but the sort that follows puts them back in place.
- `SubjectCard.CardSelection.ChooseChapter`: it accepts any string. The source's options are only the empty option and the entries of `uniqueChapters` (components/SubjectCard.tsx:721-724).
- `SubjectCard.CardSelection.ChooseStatus`: it takes one of the four dropdown options directly. The `as` cast in the source adds no check.
- Duration strings are not parsed or formatted, and questions are not rolled up by type. None of the modelled source files does either. Times are shown as raw strings (components/SubjectCard.tsx:413, 507, 782). The `type` label that `constants.ts` gives each question is not a field of `QuestionDetail` in `types.ts`, so the model does not have it either.
- DOM scrolling is not modelled: scroll detection, `scrollBy`, the delayed `scrollIntoView` after a chapter click or after opening the table, and the resize listeners. All of these are browser I/O and timers.
- Presentation is not modelled: JSX layout, class strings, icons, `getResultColor` and `getResultIcon`, poster styles, the `isOffline` column switch, and the displayed `Math.round(subject.accuracy)`.
- Floating-point geometry is not modelled: the SVG ring offsets, the benchmark marker positions (which divide by `highest - lowest` without a guard), and the usage and behaviour bar widths.
- React's deferred state updates are not modelled. Each handler reads the state of the current render once and then sets fields, so the model applies its assignments in order.
- Of the data in `constants.ts`, only the Biology chapter buckets and question list appear, as worked values. The other data in that file is static.
- `App.ReportView.constructor`: requires at least one subject. The source reads `data.subjects[0].name` when the page mounts, so an empty list would throw there.
- The subject-detail behaviour is modelled from `components/SubjectCard.tsx` as written. That file prefers the chapter sums and falls back to the question tallies. No other variant of that view is part of this model.
