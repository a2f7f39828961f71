# exam-frontend, modelled in Dafny

exam-frontend is the browser front end of a track-and-field club system. This
project models the logic inside its React components and proves properties of it.
The three screens it covers are:

- **Results.** A table of results that can be filtered by discipline and gender and
  sorted by value or date. A form edits one result, or a list of bulk entries for one
  discipline, and submits them to the result service. A result's value is shown by
  `formatResultValue` as a clock time `HH:MM:SS.CC`, a distance in metres, or points.
- **Time input.** The `TimeInput` widget splits a time into four fields and emits the
  recombined total whenever a field changes.
- **Participants.** The participant list has a search box and four filters. It sorts
  by a column chosen in the header and shows pages of 20. Each row shows the
  participant's age, age bracket and disciplines. The participant form edits one
  participant record.

Files and modules:

| file | module | models |
|---|---|---|
| `result_codec.dfy` | `ResultCodec` | result values, the `TIME`/`DISTANCE`/`POINTS` rendering, and a parser of the rendered text that inverts it |
| `time_input.dfy` | `TimeEntry` | the `TimeInput` component as a class with four fields |
| `result_management.dfy` | `Results` | the result screen's state (a class), its handlers, the filter/sort pipeline and the three submission paths |
| `participant_list.dfy` | `Participants` | age, age bracket, the sort toggle, the sorted copy, the five filters, the pages, and the list's state (a class) |
| `participant_table.dfy` | `Pager` | the Previous/Next rules, the sort indicator and the disciplines cell |
| `participant_form.dfy` | `ParticipantEditor` | the participant form's record updates and discipline lookup |
| `sorting.dfy` | `Sorting` | the three-way comparator both screens use, a stable sort (a function, and an in-place insertion sort on an array proved equal to it) |
| `sequences.dfy`, `text.dfy`, `arithmetic.dfy` | `Sequences`, `Text`, `Arithmetic` | `filter`, `find`, `slice`, decimal text, `padStart`, `toLowerCase`, `includes`, `join`, and floor/mod facts |

Values and I/O:

- Result values are exact non-negative rationals (`Magnitude`), not floating point.
  Everything the display shows depends only on the whole number of hundredths,
  `Hundredths(v)` = floor(100·v).
- Times the `TimeInput` emits are whole numbers of hundredths of a second.
- "Today" is a parameter of the age computations.
- For the result service, a submission takes the index of the first request that
  throws (`failAt`) and returns the sequence of requests it issued.

## Model

| member | source | states |
|---|---|---|
| ResultCodec.Hundredths | src/components/ResultManagment.tsx:158 | the hundredths count c is the floor of 100·v: c·den ≤ 100·num < (c+1)·den |
| ResultCodec.HundredthsExact | src/components/ResultManagment.tsx:155-158 | a value has hundredth precision exactly when its hundredths count times the denominator gives back 100·v |
| ResultCodec.FromHundredths | src/components/ResultManagment.tsx:153 | every count of hundredths is the value of some hundredth-precise value |
| ResultCodec.Split | src/components/ResultManagment.tsx:155-158 | the clock fields of a time: hours ≥ 0, minutes and seconds in 0..59, hundredths in 0..99, and they recombine to the input |
| ResultCodec.SplitUnique | src/components/ResultManagment.tsx:155-158 | any clock with fields in those ranges that recombines to c is Split(c), so the decomposition is unique |
| ResultCodec.DecomposeSplit | src/components/ResultManagment.tsx:155-158 | `Decompose`, the floor/mod expressions as written (floor(v/3600), floor((v%3600)/60), floor(v%60), floor((v%1)·100)), equals Split of the hundredths count |
| ResultCodec.DecomposeRoundTrip | src/components/ResultManagment.tsx:155-158 | for a hundredth-precise value, h·3600 + m·60 + s + cc/100 of the decomposition equals the value |
| Text.Pad2 | src/components/ResultManagment.tsx:160 | `n.toString().padStart(2, '0')` is all digits, at least 2 long, exactly 2 below 100, and reads back as the number |
| Text.Pad2Digits | src/components/ResultManagment.tsx:160 | below 100 the padded text is the tens digit followed by the units digit |
| ResultCodec.CutClockLayout | src/components/ResultManagment.tsx:160 | the layout `h:m:s.cc` can be cut back into its four parts when they contain no separator |
| ResultCodec.ParseClockFields | src/components/ResultManagment.tsx:160 | digit groups that read as a clock's fields, laid out as `h:m:s.cc`, parse back to that clock |
| ResultCodec.ClockTextRoundTrip | src/components/ResultManagment.tsx:159-161 | the `HH:MM:SS.CC` text of any non-negative clock parses back to that clock |
| ResultCodec.ClockDisplayRoundTrip | src/components/ResultManagment.tsx:159-161 | the time text of a clock reads back as the clock's total in hundredths |
| ResultCodec.DistanceTextRoundTrip | src/components/ResultManagment.tsx:167 | `metres.cc` text reads back as metres·100 + cc |
| ResultCodec.PointsTextRoundTrip | src/components/ResultManagment.tsx:172 | the points text of a count of hundredths reads back as that count |
| ResultCodec.TimeRoundTrip | src/components/ResultManagment.tsx:154-162 | the TIME text of any value reads back as its hundredths count |
| ResultCodec.DistanceRoundTrip | src/components/ResultManagment.tsx:163-169 | the DISTANCE text of any value reads back as its hundredths count: metres and truncated centimetres |
| ResultCodec.FormatRoundTrip | src/components/ResultManagment.tsx:153-176 | `FormatResultValue` is inverted by the parser `ParseDisplay`: for every result type, the formatted text reads back as the value's hundredths count |
| ResultCodec.FormatDeterminedByHundredths | src/components/ResultManagment.tsx:153-176 | two values format to the same text exactly when they have the same hundredths count, and the unit depends only on the result type; for POINTS this rests on the truncation admitted under ResultCodec.PointsText |
| ResultCodec.TimeExample | src/components/ResultManagment.tsx:154-162 | 3661.5 s formats as `01:01:01.50` with unit `HH:MM:SS:CC` |
| ResultCodec.DistanceTruncates | src/components/ResultManagment.tsx:163-169 | 12.345 formats as `12.34` with unit `m`: truncated, not rounded |
| ResultCodec.PointsExamples | src/components/ResultManagment.tsx:170-174 | 12, 12.5 and 12.05 points render as `12`, `12.5` and `12.05` |
| TimeEntry.Edit | src/utils/TimeInput.tsx:24 | setting one field stores the value as given and leaves the other three fields unchanged |
| TimeEntry.EditShift | src/utils/TimeInput.tsx:15 | `Recombine`, the total h·3600 + m·60 + s + cc/100, shifts by (new − old) × that field's weight when one field is edited |
| TimeEntry.NoClamping | src/utils/TimeInput.tsx:34-37 | minutes set to 75, outside the 0..59 hint, are stored as 75, and the total shifts by (75 − old minutes)·60 s |
| TimeEntry.TimeInput.constructor | src/utils/TimeInput.tsx:9-12 | the initial fields are the floor/mod decomposition of the value, and their total is the value's hundredths count, so a hundredth-precise value comes back unchanged |
| TimeEntry.TimeInput.Set | src/utils/TimeInput.tsx:14-17 | the fields become Edit of the old fields; the emitted total is the new fields' total, i.e. the old total shifted by the weighted difference |
| TimeEntry.TimeInput.SetHours | src/utils/TimeInput.tsx:24 | only `hours` changes; the total shifts by (x − old hours)·3600 s |
| TimeEntry.TimeInput.SetMinutes | src/utils/TimeInput.tsx:34 | only `minutes` changes; the total shifts by (x − old minutes)·60 s |
| TimeEntry.TimeInput.SetSeconds | src/utils/TimeInput.tsx:44 | only `seconds` changes; the total shifts by (x − old seconds) s |
| TimeEntry.TimeInput.SetHundredths | src/utils/TimeInput.tsx:54 | only `hundredths` changes; the total shifts by (x − old hundredths)/100 s |
| Results.NumberValue | src/components/ResultManagment.tsx:67 | `Number(text)`: the empty text is 0, a digit string a non-negative number |
| Results.NumberValueOfId | src/components/ResultManagment.tsx:305 | an id's option value reads back as the id |
| Results.DisciplineFilterOptions | src/components/ResultManagment.tsx:302-306 | "All Disciplines" clears the filter; a discipline's option sets the filter to its id |
| Results.MatchingMembers | src/components/ResultManagment.tsx:178-180 | a result passes the two filters exactly when it is one of the results and matches both conditions |
| Results.VisibleMembers | src/components/ResultManagment.tsx:178-185 | `Visible` (filteredAndSortedResults) is sound and complete: a result is shown exactly when it is one of the results, its discipline matches a non-null non-zero discipline filter, and its gender matches a non-empty gender filter |
| Results.VisiblePermutation | src/components/ResultManagment.tsx:181-185 | the sorted table is a permutation of the filtered results |
| Results.VisibleOrdered | src/components/ResultManagment.tsx:181-185 | the table is non-decreasing by the sort field when ascending and non-increasing when descending |
| Results.VisibleStable | src/components/ResultManagment.tsx:181-185 | results with equal sort keys keep their filtered order |
| Results.ClearedFiltersShowAll | src/components/ResultManagment.tsx:178-180 | with both filters cleared every result is shown, only sorted |
| Results.GenderFilterShows | src/components/ResultManagment.tsx:308-312 | `GenderFilterOf`: after "All Genders" the table shows every result passing the discipline filter; after a gender, exactly those whose participant has that gender |
| Results.DisciplineFilterShows | src/components/ResultManagment.tsx:302-306 | `DisciplineFilterOf`: after "All Disciplines" the table shows every result passing the gender filter; after the option of discipline id, exactly that discipline's results (id 0 clears the filter) |
| Results.ReplaceAt | src/components/ResultManagment.tsx:66-68 | replacing entry i keeps the length and every other entry |
| Results.SelectedDisciplineFirst | src/components/ResultManagment.tsx:70 | the selected discipline is the first whose id is the option's number, or none when no discipline has it |
| Results.ChooseDisciplineOption | src/components/ResultManagment.tsx:69-76 | with distinct ids, choosing a discipline's option selects it, `WithDiscipline` makes the entry refer to it and take its result type, and keeps the entry's other fields |
| Results.EditSubmitsUpdate | src/components/ResultManagment.tsx:100-106 | after the edit button (`EntryOf`), the update targets the result's id and carries its participant and discipline ids, value, date and type |
| Results.BulkParticipantChoice | src/components/ResultManagment.tsx:66-68 | `FieldFor`: choosing participant pid in bulk row i makes create i carry participant pid and the selected discipline, and leaves every other create as it was |
| Results.SingleCreate | src/components/ResultManagment.tsx:117-123 | with no edit and no bulk rows, one create (`CreateFor`) is sent with the participant and discipline the selects set |
| Results.BulkUsesSelectedDiscipline | src/components/ResultManagment.tsx:107-115 | `SubmitPlan` with bulk rows is `BulkCalls`: create k carries the selected discipline's id and entry k's own participant id |
| Results.EditingSendsOneUpdate | src/components/ResultManagment.tsx:100-106 | while a result is edited, `SubmitPlan` sends exactly one call, an update (`UpdateFor`), whatever bulk entries exist |
| Results.Issued | src/components/ResultManagment.tsx:99-128 | the calls issued are a prefix of the plan: all of it when no call throws, up to and including the throwing call otherwise |
| Results.CreateAll | src/components/ResultManagment.tsx:109-115 | the bulk loop issues one create per entry, in list order, stopping after the first that throws |
| Results.ResultManagement.constructor | src/components/ResultManagment.tsx:29-39 | the initial state: empty lists and form, no filters, sorted by value ascending |
| Results.ResultManagement.Loaded | src/components/ResultManagment.tsx:29-31 | the fetched lists are stored |
| Results.ResultManagement.HandleInputChange | src/components/ResultManagment.tsx:62-82 | a bulk edit replaces only entry `index`, setting one field; the discipline select stores the first matching discipline and sets `discipline` and `resultType` on the edited or the new result; other inputs set one field of the edited or the new result; nothing else changes |
| Results.ResultManagement.HandleTimeChange | src/components/ResultManagment.tsx:84-95 | the emitted total becomes `resultValue` of entry `index`, of the edited result or of the new result, and nothing else changes |
| Results.ResultManagement.AddBulkResult | src/components/ResultManagment.tsx:139-141 | exactly one empty entry is appended |
| Results.ResultManagement.ResetForm | src/components/ResultManagment.tsx:132-137 | the new result, edited result, selected discipline and bulk list are cleared |
| Results.ResultManagement.HandleEdit | src/components/ResultManagment.tsx:143-146 | the form edits the result and selects its discipline |
| Results.ResultManagement.SetFilterDiscipline | src/components/ResultManagment.tsx:302 | the discipline filter becomes `Number(v) \|\| null` |
| Results.ResultManagement.SetFilterGender | src/components/ResultManagment.tsx:308 | the gender filter becomes `v \|\| null` |
| Results.ResultManagement.SetSortField | src/components/ResultManagment.tsx:313 | the sort field becomes the chosen one |
| Results.ResultManagement.ToggleSortDirection | src/components/ResultManagment.tsx:317 | the direction flips between ascending and descending |
| Results.ResultManagement.FilteredAndSortedResults | src/components/ResultManagment.tsx:178-185 | the list shown is the sorted copy of the filtered results, so the lemmas on `Visible` apply, and `results` is unchanged |
| Results.ResultManagement.Submit | src/components/ResultManagment.tsx:97-129 | the calls are the plan (an update when editing, else one create per bulk entry, else one create) cut at the throwing call; on a throw the form is left as it was, otherwise it is reset |
| Sorting.SortByPermutation | src/components/ResultManagment.tsx:181-185 | `SortBy`, the stable comparator sort, is a permutation of its input |
| Sorting.SortBySorted | src/components/ResultManagment.tsx:181-185 | the comparator sort is ordered by the key in the chosen direction |
| Sorting.SortByStable | src/components/ResultManagment.tsx:181-185 | elements with equal keys keep their relative order (the stable `Array.prototype.sort`) |
| Sorting.SortByMembers | src/components/ResultManagment.tsx:181-185 | sorting neither adds nor drops elements |
| Sorting.SortFilterCommute | src/components/ParticipantList.tsx:134-165 | filtering the sorted list equals sorting the filtered list |
| Sorting.InOrderTotalPreorder | src/components/ParticipantList.tsx:137-145 | the three-way comparator with `<` and `>` is a total preorder in either direction |
| Sorting.StrLessStrictTotalOrder | src/components/ResultManagment.tsx:182-183 | `StrLess`, JavaScript's `<` on strings by UTF-16 code unit, is irreflexive, transitive and total on distinct strings |
| Sorting.Utf16Injective | src/components/ParticipantList.tsx:138-141 | different strings have different UTF-16 code units (`Utf16`), so `<` and `>` never both fail on different names |
| Sorting.SurrogatesSortLow | src/components/ParticipantList.tsx:138-141 | a character above U+FFFF (a surrogate pair) sorts before one in U+E000–U+FFFF, as code-unit order dictates |
| Sorting.InsertInPlace | src/components/ParticipantList.tsx:137-145 | one in-place insertion step leaves the array as `InsertBack` of the prefix and the element, followed by the untouched rest |
| Sorting.SortInPlace | src/components/ParticipantList.tsx:137-145 | sorting the array in place leaves it equal to the stable sort of its old contents |
| Sorting.SortedCopy | src/components/ParticipantList.tsx:135-137 | sorting a copy yields the stable sort and leaves the original as it was |
| Participants.IdTextInjective | src/components/ParticipantList.tsx:164 | different ids have different `toString()` texts |
| Participants.ParseIsoDate | src/components/ParticipantList.tsx:108 | a parsed `YYYY-MM-DD` date has a month in 1..12 and a day in 1..31 |
| Participants.IsoDateRoundTrip | src/components/ParticipantList.tsx:108 | the `YYYY-MM-DD` text of a date parses back to that date |
| Participants.Age | src/components/ParticipantList.tsx:106-115 | the age is the year difference, minus 1 exactly when today's (month, day) is before the birthday's; it is the number of whole years whose anniversary has passed |
| Participants.CalculateAge | src/components/ParticipantList.tsx:106-115 | the method with the mutable `age` computes Age |
| Participants.AgeUnique | src/components/ParticipantList.tsx:106-115 | the age is the only n whose n-th anniversary has passed and whose (n+1)-th has not |
| Participants.BirthdayBoundary | src/components/ParticipantList.tsx:111-113 | for every birth date, on the birthday the age is the year difference, and on the calendar day before (in the previous month or year when the birthday is on the 1st) it is one less |
| Participants.AgeBracket | src/components/ParticipantList.tsx:117-124 | 6–9 children, 10–13 youth, 14–22 junior, 23–40 adult, everything else (below 6 too) senior, each an if-and-only-if |
| Participants.BracketOfSpec | src/components/ParticipantList.tsx:117-124 | `BracketOf` of a `YYYY-MM-DD` birthdate is the bracket of the age on that date; text that is not a date is senior |
| Participants.BracketNameInjective | src/components/ParticipantList.tsx:119-123 | the five bracket names differ |
| Participants.NextSortConfig | src/components/ParticipantList.tsx:126-132 | the clicked key becomes the key; the direction is descending exactly when that key was sorted ascending |
| Participants.TwoClicksRestore | src/components/ParticipantList.tsx:126-132 | two clicks on the sorted column return to the starting configuration |
| Participants.SortedParticipantsSpec | src/components/ParticipantList.tsx:134-148 | `SortedParticipants` is the list itself with no sort chosen; otherwise a permutation, ordered by the column in the chosen direction, and stable |
| Participants.SetFilter | src/components/ParticipantList.tsx:98-104 | the named filter is set and the other three are kept |
| Participants.FilterChain | src/components/ParticipantList.tsx:150-165 | the five filters in a row keep exactly what one filter by their conjunction keeps |
| Participants.FilteredSpec | src/components/ParticipantList.tsx:150-165 | `FilteredParticipants` lists a participant exactly when its lowercased name contains the lowercased term and every non-empty filter matches; the list is an order-preserving subsequence |
| Participants.NoCriteriaListAll | src/components/ParticipantList.tsx:150-165 | with an empty search and no filters everyone is listed, in order |
| Participants.SortThenFilter | src/components/ParticipantList.tsx:134-165 | sorting before filtering lists the same as filtering before sorting |
| Participants.PageSpec | src/components/ParticipantList.tsx:167-170 | `Page`, the `slice` of the list, holds list[(p−1)·20 ..] and has length max(0, min(20, n − (p−1)·20)) for p ≥ 1 |
| Participants.FortyOneParticipants | src/components/ParticipantList.tsx:167-170 | with 41 participants pages 1 and 2 hold 20, page 3 holds only the last, page 4 is empty |
| Participants.ParticipantList.constructor | src/components/ParticipantList.tsx:22-33 | the list starts on page 1 with no search, no filters and no sort |
| Participants.ParticipantList.Loaded | src/components/ParticipantList.tsx:22 | the fetched participants are stored |
| Participants.ParticipantList.HandleSearchChange | src/components/ParticipantList.tsx:94-96 | the search term is set and the page is not reset |
| Participants.ParticipantList.HandleFilterChange | src/components/ParticipantList.tsx:98-104 | only the named filter changes; search term and page are kept |
| Participants.ParticipantList.HandleSort | src/components/ParticipantList.tsx:126-132 | the sort configuration becomes NextSortConfig of the old one |
| Participants.ParticipantList.SetCurrentPage | src/components/ParticipantTable.tsx:77 | the page becomes the one asked for |
| Participants.ParticipantList.Shown | src/components/ParticipantList.tsx:134-170 | the table gets the current page of the filtered sorted copy, and the number of participants that pass the filters |
| Pager.ClickInRange | src/components/ParticipantTable.tsx:77-83 | `AfterClick`, with `PreviousDisabled` and `NextDisabled`, leads from a page in range to a page in range |
| Pager.NavigateInRange | src/components/ParticipantTable.tsx:77-83 | `Navigate` from a page in range (page 1, say), by any clicks, stays in range, so ≥ 1 and inside the list |
| Pager.NavigatePositive | src/components/ParticipantTable.tsx:77 | from any page ≥ 1, including a page a filter left past the end of the list, clicking only enabled buttons keeps the page ≥ 1 |
| Pager.InRangePageNonEmpty | src/components/ParticipantTable.tsx:81-83 | a page in range of a non-empty list shows someone |
| Pager.NextPageNonEmpty | src/components/ParticipantTable.tsx:83 | whenever Next is enabled, the page it leads to is non-empty |
| Pager.StalePageAfterFilter | src/components/ParticipantTable.tsx:77-83 | on page 3 of 41, a filter down to 5 leaves an empty page with Next disabled and Previous enabled |
| Pager.SortIndicator | src/components/ParticipantTable.tsx:44-54 | a column shows a mark exactly when it is the sorted column: ↑ exactly when ascending, ↓ exactly when descending |
| Pager.OneIndicator | src/components/ParticipantTable.tsx:44-54 | at most one of two columns shows a mark |
| Pager.DisciplinesCellSpec | src/components/ParticipantTable.tsx:67 | `DisciplinesCell` is empty with no disciplines, the name with one, and one more discipline appends ", " and its name, so it holds every name, in order, with ", " between neighbours; its length follows |
| ParticipantEditor.WithField | src/components/ParticipantForm.tsx:33-56 | editing name, gender, birthdate or team sets that field and leaves all other fields unchanged |
| ParticipantEditor.WithFieldLaws | src/components/ParticipantForm.tsx:33-56 | writing back a field's value changes nothing, and the later of two writes wins |
| ParticipantEditor.ChosenFirst | src/components/ParticipantForm.tsx:23 | `Chosen` maps an option to the first discipline whose id text is its value, or to undefined when there is none |
| ParticipantEditor.DisciplineChange | src/components/ParticipantForm.tsx:22-25 | one entry per selected option, in option order, each the option's lookup; nothing but the disciplines changes |
| ParticipantEditor.ChosenOwnOption | src/components/ParticipantForm.tsx:23 | with unique ids, a discipline's own option maps back to it |
| ParticipantEditor.SelectStoresDisciplines | src/components/ParticipantForm.tsx:22-25 | with unique ids, selecting options (`SelectedValues`) stores exactly the selected disciplines in catalog order |
| ParticipantEditor.ReselectUnchanged | src/components/ParticipantForm.tsx:59-67 | with unique ids, `MultiSelectValue` then shows the selected ids, and re-selecting exactly those options leaves the record unchanged |
| ParticipantEditor.SubmitEffects | src/components/ParticipantForm.tsx:28 | submission first prevents the default action and calls `handleCreateParticipant` exactly once |
| Text.NatToStringDigits | src/components/ResultManagment.tsx:160 | `NatToString` (`toString` of a whole number) is a non-empty digit run without a leading zero |
| Text.ParseNatToString | src/components/ResultManagment.tsx:160 | `NatToString` reads back as the number |
| Text.PadStartShape | src/components/ResultManagment.tsx:160 | `PadStart` reaches the width, ends with the text and starts with copies of the pad character |
| Text.Lower | src/components/ParticipantList.tsx:152 | `toLowerCase` keeps the length and lowers each ASCII capital |
| Text.Contains | src/components/ParticipantList.tsx:152 | `includes` holds exactly when the term occurs as a contiguous slice |
| Text.JoinSnoc | src/components/ParticipantTable.tsx:67 | `Join` of one more part appends the separator and that part |
| Text.JoinLength | src/components/ParticipantTable.tsx:67 | `Join` is as long as the parts plus one separator between each two |
| Sequences.FilterMembers | src/components/ResultManagment.tsx:179-180 | `Filter` keeps exactly the elements that pass |
| Sequences.FilterIsSubsequence | src/components/ParticipantList.tsx:150-165 | `Filter` keeps the order of what it keeps |
| Sequences.FindFirst | src/components/ParticipantForm.tsx:23 | `Find` yields the first element that passes, or nothing exactly when none passes |
| Sequences.SliceBound | src/components/ParticipantList.tsx:167-170 | `Slice`'s bound never exceeds the list: a bound inside the list is taken as given, one beyond the end gives the length, and a negative one counts from the end, with 0 below the start |

## Left out

- The services (`participantService.ts`, `disciplineService.ts`, `resultService.ts`) are not part of this model. They are `fetch` I/O. A submission's outcome is the `failAt` parameter, and fetched lists arrive through the `Loaded` methods.
- `fetchResults()` after a submission, `handleDelete`, and the participant list's create, update and delete handlers are left out. They only call a service and refetch.
- React scheduling is not modelled: `useEffect`, re-rendering, `Promise.all`, and the order in which concurrent fetches resolve. The `TimeInput` effect is modelled as emitting after every setter. Its first run on mount, which emits the initial total, is not modelled.
- ResultCodec.Magnitude: result values are non-negative. A negative value, which `toString` would show with a sign and whose TIME fields would be floors of negatives, is not modelled. The `TimeInput` fields are unbounded integers, so the total they emit can be negative; such a total is not rendered by this model.
- Floating point is not modelled. Values are exact rationals (`Magnitude`), and artefacts of `%` and `*100` on doubles (such as `0.1 % 1`) do not arise.
- ResultCodec.FormatDeterminedByHundredths: the POINTS half holds only under the truncation admitted below. `value.toString()` shows 12.345 and 12.34 differently, though both have 1234 hundredths.
- ResultCodec.PointsText: a POINTS value finer than a hundredth renders truncated to hundredths, not as `Number.prototype.toString`'s full text. Values of hundredth precision render as their exact shortest decimal.
- Results.NumberValue: `Number()` is modelled on the empty string and on digit strings. Other text, including signs, spaces and decimals, counts as NaN.
- Results.ResultManagement.HandleInputChange: requires the bulk index to be in range. The rendering passes only indexes of existing rows. An out-of-range index, which would create a sparse entry in JavaScript, is not modelled. The same holds for Results.ResultManagement.HandleTimeChange.
- Results.ResultManagement.SetSortField: the sort field is one of the select's two options (`resultValue`, `date`). Arbitrary `keyof Result` strings are not modelled.
- Results.ResultKey: `resultValue` compares as a number and `date` as a string, as the comparator's `<`/`>` do. A mixture of types in one column is not modelled.
- Text.Lower: `toLowerCase` folds ASCII letters only. Full Unicode case mapping is not modelled.
- Participants.ParseIsoDate: `new Date(text)` is modelled for `YYYY-MM-DD` with month 1–12 and day 1–31. Any other text is an Invalid Date, which makes the bracket senior. Day overflow (30 February), other date formats and time zones are not modelled, and today's date is a parameter.
- TimeEntry.TimeInput: fields are integers. A fractional number typed into a field (`Number("1.5")`) is not modelled.
- The `value` prop changing after `TimeInput` is mounted is not modelled. As in the source, the fields keep their initial values.
- Rendering is not modelled: the markup, `ParticipantFilters.tsx`, `Disciplines.tsx`, `App.tsx`, `Home.tsx` and `types/types.ts`. A crash while rendering a participant whose `disciplines` is undefined is not modelled either.
- ParticipantEditor.MultiSelectValue: the source's `d.id` on an undefined entry throws while rendering. The model returns `None` in that case.
- The page is not reset when the search or the filters change. The model keeps this behaviour. Pager.StalePageAfterFilter shows its consequence: an empty page with Next disabled.
- Results.BulkParticipantChoice and Results.DisciplineFilterShows: ids are whole numbers, as the option values are the `toString` of ids. A negative id, whose text `Number()` would read with its sign, is not covered by these lemmas.
