# Course timetable planner — a verified model of its core

The planner keeps a list of university subjects. Each subject has candidate
course sections, and the user picks which section of each subject is
"chosen". The chosen sections are drawn on a weekly calendar. Sections can
be imported from the university's course listing. This project models:

- the subject/course store and its operations:
  - id allocation;
  - add, remove, update and visibility of subjects and courses;
  - the selection toggle with its three modes;
  - the additive import;
- the selection and display rules, and the weekday resolver;
- the subject panel's status class and icon;
- the calendar projection and the course-row buttons;
- the import dialog's two lists of ticked checkboxes;
- the listing reader and the search combinators:
  - row parsing, the subject accumulator, de-duplication and intersection;
  - the semester labels;
- the three course forms and the subject adder;
- the two preference stores;
- the sortable course table and its header.

A subject's selection (`status.choosen`) is a tagged value in the model.
- `Scalar(v)` is one value for the whole subject: `0` for none, `-1` for locked, or a course code.
- `PerType(m)` maps each course type to a value.

JavaScript lookups of missing keys yield `Undef`, so every consumer stays
total. State that the source replaces wholesale through React setters is a
class field that the methods reassign:
- `Store.Timetable.subjects`;
- `Settings.SettingsStore.settings` and `Settings.AppState.state`;
- `ImportDialog.ImportDialog`;
- `Forms.CourseEditor`;
- `SortableTable.TableHead` and `SortableTable.CourseTable`.

Each such method is specified by a function on the old state. The
properties are proved about those functions. The wall clock, the random
colours and the server's responses are parameters.

Behaviour of the code worth noting:
- `getNewSubjectId` and `getNewCourseId` hand out "last id + 1", while
  `importFromArrays` numbers new subjects from "largest id + 1". The two
  agree exactly when ids increase (`Store.AllocatorsAgree`,
  `Store.AllocatorsDiffer`).
- `setChoosenCourse` on an unknown subject id throws. It is not a silent no-op.
- `updateSubject` with an unknown mode label stores `undefined` as the selection.
- The subject icon treats a chosen text code as locked. This is a finding, below.
- Course rows rendered with missing callbacks throw when pressed
  (`CourseRow.SetCourse` and its siblings take a `wired` flag).
- The import dialog warns that an existing subject will be overwritten. The
  store's import skips it instead (`ImportDialog.WarnedSubjectIsKept`).
- The state store's `updateSettings` alias ignores kinds other than `show`,
  `misc` and `currentState`. The settings store sets a top-level key for any
  other kind (`Settings.UnknownKindIsNoOp`).

## Model

| member | source | states |
|---|---|---|
| Model.Lookup | src/utils/timetableUtils.js:84-102 | reading a per-type selection at a missing type yields `undefined` and at a present type yields its entry |
| Seqs.Filter | src/contexts/TimetableContext.jsx:101-103 | `Array.prototype.filter`: a subsequence of the input whose members are exactly the input's members that satisfy the predicate; the whole input when every element does |
| Seqs.FilterCounts | src/contexts/TimetableContext.jsx:101-103 | each kept value occurs in the result as often as in the input, every other value not at all; with the subsequence clause this fixes the result |
| Seqs.MapWhere | src/contexts/TimetableContext.jsx:136-141 | the shape of every update by id: same length, matching elements rewritten, the others unchanged |
| Seqs.SubseqIncreasing | src/contexts/TimetableContext.jsx:101-103 | dropping elements keeps ids strictly increasing |
| Seqs.MapWhereIncreasing | src/contexts/TimetableContext.jsx:136-141 | rewriting elements without touching ids keeps ids strictly increasing |
| Seqs.FilterDropsOne | src/contexts/TimetableContext.jsx:187-192 | filtering out exactly the element at one position leaves the others in order |
| Text.NatToString | src/utils/serverApi.js:98-99 | `toString()` of a non-negative number: non-empty decimal digits, with a leading zero only for 0 itself |
| Text.NatToStringValue | src/utils/serverApi.js:51-54 | reading a number's decimal rendering back with `parseInt` gives the number |
| Text.IntToStringInjective | src/utils/serverApi.js:126-134 | distinct integers render to distinct texts |
| Text.PadStart2 | src/utils/serverApi.js:98-99 | `padStart(2, "0")`: length two for shorter inputs, otherwise the input's length |
| Text.PadStart2Contents | src/utils/serverApi.js:98-99 | padding only puts zeros in front of the input |
| Text.PadStart2Reparse | src/utils/serverApi.js:51-54 | reading one or two digits with `parseInt` and printing them back padded gives the two-digit form of the same number |
| Text.LexCmp | src/components/subjects/CourseTable.jsx:29-31 | three-way string comparison: -1, 0 or 1, and 0 exactly on equal strings |
| Text.LexCmpAntisymmetric | src/components/subjects/CourseTable.jsx:58-60 | swapping the arguments negates the comparison |
| Text.LexCmpTransitive | src/components/subjects/CourseTable.jsx:58-60 | the comparison is transitive |
| Text.Trim | src/utils/serverApi.js:37-40 | `trim()`: the result neither starts nor ends with white space; `TrimIsSlice` ties it to the input |
| Text.TrimIsSlice | src/utils/serverApi.js:37-40 | the result is a slice `s[a..b]` of the input with only white space before `a` and from `b` on, and it is empty exactly when the input is all white space |
| Text.TrimUnspaced | src/utils/serverApi.js:37-40 | trimming a string that neither starts nor ends with white space leaves it unchanged |
| Text.ToLower | src/components/menu/SubjectAdder.jsx:32 | lower-casing keeps the length and maps every character |
| Text.Capitalize | src/utils/serverApi.js:92-93 | first character upper-cased and the rest lower-cased; the empty string stays empty |
| Text.FirstSpaceToken | src/utils/serverApi.js:65-67 | `split(" ")[0]`: the prefix before the first space, which contains no space |
| TimetableUtils.DayIndex | src/utils/timetableUtils.js:9-18 | the table's index of a weekday name, in 0..6: Sunday is 0 and Monday 1; any other name has none |
| TimetableUtils.DateOfThisWeeksDay | src/utils/timetableUtils.js:7-34 | a date exactly for the names the table knows; an unknown name gives an invalid date |
| TimetableUtils.DateIsMondayPlusIndex | src/utils/timetableUtils.js:20-34 | the resolved date is this week's Monday plus the name's index minus one |
| TimetableUtils.WeekdayInThisWeek | src/utils/timetableUtils.js:7-34 | Monday to Saturday resolve to that weekday inside the Monday-to-Sunday week of today |
| TimetableUtils.SameWeekSameDate | src/utils/timetableUtils.js:7-34 | any two days of the same week resolve a name to the same date |
| TimetableUtils.SundayIsBeforeMonday | src/utils/timetableUtils.js:7-34 | "Vasárnap" resolves to the Sunday just before this week's Monday |
| TimetableUtils.IsDisplayed | src/utils/timetableUtils.js:47-74 | locked subjects show every course; otherwise a course shows iff it is not hidden and its (per-type) selection is empty or that course; a type missing from the map shows nothing |
| TimetableUtils.IsChoosen | src/utils/timetableUtils.js:84-102 | whether a course is highlighted: locked mode highlights all, otherwise the code must equal the (per-type) selection |
| TimetableUtils.ChosenIsDisplayed | src/utils/timetableUtils.js:47-102 | a chosen course that is not hidden is displayed in every mode |
| TimetableUtils.HiddenNotDisplayed | src/utils/timetableUtils.js:47-74 | a hidden course of a subject that is not locked is never displayed |
| Store.NewSubjectId | src/contexts/TimetableContext.jsx:50-53 | 1 for an empty store, else the last id plus one, above every id when ids increase |
| Store.NewCourseId | src/contexts/TimetableContext.jsx:62-65 | 1 for no courses, else the last course id plus one, above every course id when ids increase |
| Store.AddSubjectTo | src/contexts/TimetableContext.jsx:75-94 | appends one subject with the new id, given code and name, no courses, shown, all-zero per-type selection |
| Store.RemoveSubjectFrom | src/contexts/TimetableContext.jsx:101-103 | keeps exactly the subjects with another id, in order |
| Store.ChosenForMode | src/contexts/TimetableContext.jsx:116-122 | the selection each mode label installs: 0, -1, the all-zero per-type map, or `undefined` for an unknown label |
| Store.UpdateSubjectIn | src/contexts/TimetableContext.jsx:115-128 | subjects with the id get new code, name, colour and reset selection, keeping id, courses and visibility; others unchanged |
| Store.UpdateShowSubjectIn | src/contexts/TimetableContext.jsx:136-141 | subjects with the id get the visibility flag; nothing else changes |
| Store.WithNewCourse | src/contexts/TimetableContext.jsx:157-178 | the subject with one course appended carrying the new course id, the fields, and `show` true |
| Store.AddCourseTo | src/contexts/TimetableContext.jsx:157-178 | appends that course to every subject with the id; other subjects unchanged |
| Store.RemoveCourseFrom | src/contexts/TimetableContext.jsx:187-192 | in subjects with the id, keeps exactly the courses with another id |
| Store.UpdateCourseIn | src/contexts/TimetableContext.jsx:209-228 | rewrites the fields of matching courses, keeping their id and visibility |
| Store.UpdateShowCourseIn | src/contexts/TimetableContext.jsx:238-247 | sets the visibility of matching courses; nothing else changes |
| Store.FindSubject | src/contexts/TimetableContext.jsx:260 | `find`: the first subject with the id, or none when no subject has it |
| Store.Toggle | src/contexts/TimetableContext.jsx:263-268 | the clicked code when it was not selected, 0 when it was |
| Store.ToggleKind | src/contexts/TimetableContext.jsx:263 | in per-type mode only the clicked type's entry changes, by `Toggle` |
| Store.ToggleScalar | src/contexts/TimetableContext.jsx:266-268 | a scalar selection is toggled unless it is -1, which stays |
| Store.SetChoosenIn | src/contexts/TimetableContext.jsx:259-272 | none (the source throws) when no subject has the id; otherwise the mode of the first match decides how every match's selection changes |
| Store.MaxId | src/contexts/TimetableContext.jsx:284 | `Math.max` of the ids: the id of some subject and at least every id |
| Store.NextImportId | src/contexts/TimetableContext.jsx:284 | 1 for an empty store, else the largest id plus one |
| Store.NumberedCourses | src/contexts/TimetableContext.jsx:289-303 | the candidate courses of the subject, numbered consecutively from the start value and shown |
| Store.ImportedSubjects | src/contexts/TimetableContext.jsx:286-320 | the new subjects carry consecutive ids from the start id and only codes not yet present |
| Store.NumberedCoursesAreFiltered | src/contexts/TimetableContext.jsx:289-303 | each imported subject's courses are exactly the candidates naming its code, in input order, numbered 1, 2, … |
| Store.ImportedSubjectsAreFiltered | src/contexts/TimetableContext.jsx:286-320 | the new subjects are the candidates whose code is new, in input order, with ids counting on from the start id |
| Store.ImportInto | src/contexts/TimetableContext.jsx:281-324 | the old store followed by the imported subjects; existing subjects untouched |
| Store.AddSubjectKeepsWellFormed | src/contexts/TimetableContext.jsx:75-94 | adding a subject keeps subject and course ids strictly increasing |
| Store.RemoveSubjectKeepsWellFormed | src/contexts/TimetableContext.jsx:101-103 | removing a subject keeps ids increasing |
| Store.UpdateSubjectKeepsWellFormed | src/contexts/TimetableContext.jsx:115-128 | updating a subject keeps ids increasing |
| Store.UpdateShowSubjectKeepsWellFormed | src/contexts/TimetableContext.jsx:136-141 | the visibility update keeps ids increasing |
| Store.AddCourseKeepsWellFormed | src/contexts/TimetableContext.jsx:157-178 | adding a course keeps ids increasing |
| Store.RemoveCourseKeepsWellFormed | src/contexts/TimetableContext.jsx:187-192 | removing a course keeps ids increasing |
| Store.UpdateCourseKeepsWellFormed | src/contexts/TimetableContext.jsx:209-228 | updating a course keeps ids increasing |
| Store.UpdateShowCourseKeepsWellFormed | src/contexts/TimetableContext.jsx:238-247 | the course visibility update keeps ids increasing |
| Store.SetChoosenKeepsWellFormed | src/contexts/TimetableContext.jsx:259-272 | a selection click keeps ids increasing |
| Store.ImportKeepsWellFormed | src/contexts/TimetableContext.jsx:281-324 | the import keeps ids increasing |
| Store.AddThenRemoveSubject | src/contexts/TimetableContext.jsx:75-103 | adding a subject and removing it by its new id gives back the store |
| Store.FindInWellFormed | src/contexts/TimetableContext.jsx:260 | in a store with increasing ids, `find` returns the only subject with that id |
| Store.NextChosen | src/contexts/TimetableContext.jsx:259-272 | the selection one click leaves: per-type entry toggled, scalar toggled, locked unchanged |
| Store.NextChosenTwice | src/contexts/TimetableContext.jsx:259-272 | two clicks on the same course restore a selection that was empty or that course |
| Store.NextChosenMissingKey | src/contexts/TimetableContext.jsx:263 | clicking a type missing from the per-type map selects the course, and a second click resets it to 0 |
| Store.SetChoosenAtTarget | src/contexts/TimetableContext.jsx:259-272 | a click gives the target subject `NextChosen` of its selection |
| Store.SetChoosenElsewhere | src/contexts/TimetableContext.jsx:259-272 | a click leaves every other subject unchanged |
| Store.SetChoosenByMode | src/contexts/TimetableContext.jsx:259-272 | in a well-formed store a click replaces only the target subject's selection |
| Store.SetChoosenTwice | src/contexts/TimetableContext.jsx:259-272 | clicking the same course twice restores the store when the selection was empty or that course |
| Store.AllocatorsAgree | src/contexts/TimetableContext.jsx:50-53 | with increasing ids, `getNewSubjectId` and the import allocate the same next id |
| Store.AllocatorsDiffer | src/contexts/TimetableContext.jsx:284 | with ids 5 then 2, `getNewSubjectId` gives 3 but the import gives 6 |
| Store.ReimportIsNoOp | src/contexts/TimetableContext.jsx:283-287 | importing only subjects whose codes are present leaves the store unchanged |
| Store.DuplicateCodesKept | src/contexts/TimetableContext.jsx:286-320 | two candidates with the same new code both become subjects with distinct ids |
| Store.Timetable.constructor | src/contexts/TimetableContext.jsx:13-33 | the store starts empty (persistence is not modelled) |
| Store.Timetable.AddSubject | src/contexts/TimetableContext.jsx:75-94 | the store becomes `AddSubjectTo` of the old store |
| Store.Timetable.RemoveSubject | src/contexts/TimetableContext.jsx:101-103 | the store becomes `RemoveSubjectFrom` of the old store |
| Store.Timetable.UpdateSubject | src/contexts/TimetableContext.jsx:115-128 | the store becomes `UpdateSubjectIn` of the old store |
| Store.Timetable.UpdateShowSubject | src/contexts/TimetableContext.jsx:136-141 | the store becomes `UpdateShowSubjectIn` of the old store |
| Store.Timetable.AddCourse | src/contexts/TimetableContext.jsx:157-178 | the store becomes `AddCourseTo` of the old store |
| Store.Timetable.RemoveCourse | src/contexts/TimetableContext.jsx:187-192 | the store becomes `RemoveCourseFrom` of the old store |
| Store.Timetable.UpdateCourse | src/contexts/TimetableContext.jsx:209-228 | the store becomes `UpdateCourseIn` of the old store |
| Store.Timetable.UpdateShowCourse | src/contexts/TimetableContext.jsx:238-247 | the store becomes `UpdateShowCourseIn` of the old store |
| Store.Timetable.SetChoosenCourse | src/contexts/TimetableContext.jsx:259-272 | reports a throw and keeps the store when the id is unknown; otherwise the store becomes `SetChoosenIn` of the old one |
| Store.Timetable.ImportFromArrays | src/contexts/TimetableContext.jsx:281-324 | the loop with its id counter leaves exactly `ImportInto` of the old store |
| Store.CoursesFor | src/contexts/TimetableContext.jsx:289-303 | the inner loop with its course counter yields exactly the numbered candidates of the code |
| SubjectView.Kinds | src/components/subjects/Subject.jsx:98 | the course types, one per course, in order |
| SubjectView.Distinct | src/components/subjects/Subject.jsx:99 | `[...new Set(xs)]`: no repeats and the same members as the input |
| SubjectView.DistinctFirstOccurrenceOrder | src/components/subjects/Subject.jsx:99 | the values come out in the order of their first occurrence in the input, which with the members and the absence of repeats fixes the result |
| SubjectView.CountChosen | src/components/subjects/Subject.jsx:101-104 | the count is at most the number of types |
| SubjectView.CountChosenAll | src/components/subjects/Subject.jsx:101-106 | the count equals the number of types exactly when every type counts as chosen |
| SubjectView.CountChosenSome | src/components/subjects/Subject.jsx:101-108 | the count is positive exactly when some type counts as chosen |
| SubjectView.GetStatus | src/components/subjects/Subject.jsx:96-115 | the loops return the status class the rules give |
| SubjectView.DistinctKindsMembers | src/components/subjects/Subject.jsx:98-99 | the distinct types are exactly the types of the courses |
| SubjectView.AllTypesChosen | src/components/subjects/Subject.jsx:96-107 | per-type mode shows success exactly when every course's type counts as chosen |
| SubjectView.SomeTypeChosen | src/components/subjects/Subject.jsx:96-110 | per-type mode shows partial exactly when some but not all types count as chosen |
| SubjectView.StatusPerType | src/components/subjects/Subject.jsx:96-115 | per-type mode: success iff all types are chosen, partial iff some, no class otherwise |
| SubjectView.StatusClass | src/components/subjects/Subject.jsx:96-115 | the rule of `getStatus`; `StatusPerType`, `StatusScalar` and `GetStatus` state it |
| SubjectView.NoCoursesIsSuccess | src/components/subjects/Subject.jsx:96-107 | a per-type subject without courses already shows success |
| SubjectView.MissingTypesAreSuccess | src/components/subjects/Subject.jsx:103 | a type missing from the per-type map counts as chosen |
| SubjectView.StatusScalar | src/components/subjects/Subject.jsx:111-115 | scalar mode: success iff the selection is not 0, so locked subjects show success |
| SubjectView.NonNegativeNumber | src/components/subjects/Subject.jsx:125 | JavaScript's `Number(s) >= 0`: a digit string counts as non-negative |
| SubjectView.NonNegativeNumberCases | src/components/subjects/Subject.jsx:125 | a minus sign before digits reads as a negative number (or zero), and a single letter as not a number |
| SubjectView.GetIcon | src/components/subjects/Subject.jsx:122-130 | as written: list for per-type, check-circle when `choosen >= 0`, lock otherwise |
| SubjectView.IconOf | src/components/subjects/Subject.jsx:122-130 | by mode: list for per-type, lock for -1, check-circle for every other scalar |
| SubjectView.GetIconLocksTextCodes | src/components/subjects/Subject.jsx:125 | a subject whose chosen course code is "A" shows the lock icon as written but check-circle as intended |
| SubjectView.LetterIsNotANumber | src/components/subjects/Subject.jsx:125 | `Number("A")` is not a number, so `"A" >= 0` is false |
| SubjectView.GetIconAgreesOnDigitCodes | src/components/subjects/Subject.jsx:122-130 | on the markers and on digit codes the two icon functions agree |
| SubjectView.SubjectSubmit | src/components/subjects/Subject.jsx:47-89 | the `addCourse` call is made exactly when the code is not reserved and no required input is empty, with those fields |
| SubjectView.HandleChange | src/components/subjects/Subject.jsx:36-39 | passes the subject's id and its flipped visibility |
| SubjectView.HandleChangeTwice | src/components/subjects/Subject.jsx:36-39 | toggling a subject's visibility twice gives back the store |
| Projection.CourseEvent | src/components/timetable/Timetable.jsx:25-46 | the event of a course: title, times on the resolved date, the subject colour as border, the subject colour as background when chosen and black otherwise, display by `isDisplayed`, dashed border for lectures and an empty second class otherwise, click data; none for an unknown weekday |
| Projection.EventsOf | src/components/timetable/Timetable.jsx:25-46 | one event per course, in order, or none if some course has an unknown weekday |
| Projection.SetCourses | src/components/timetable/Timetable.jsx:23-47 | a hidden subject yields no events, a shown one its courses' events |
| Projection.AllEventsCount | src/components/timetable/Timetable.jsx:59 | when defined, there is one event per course of every shown subject |
| Projection.AllEventsFromShownCourses | src/components/timetable/Timetable.jsx:59 | every event is the event of a course of a shown subject |
| Projection.AllEvents | src/components/timetable/Timetable.jsx:59 | the events of every subject in store order; `AllEventsCount` and `AllEventsFromShownCourses` state its result |
| Projection.HiddenDays | src/components/timetable/Timetable.jsx:66 | Sunday is always hidden; Saturday exactly when the Saturday setting is off |
| Projection.OnEventClick | src/components/timetable/Timetable.jsx:55-57 | a click asks for the toggle of the event's subject, course code and type |
| Projection.ClickFlipsHighlight | src/components/timetable/Timetable.jsx:55-57 | clicking a course's event on a subject that is not locked flips that course's highlight |
| Projection.ClickOnLockedIsNoOp | src/components/timetable/Timetable.jsx:55-57 | clicking an event of a locked subject leaves the store unchanged |
| CourseRow.RowIsChoosen | src/Courses.jsx:34-40 | the row highlight: the per-type entry or the scalar equals the course code |
| CourseRow.RowClass | src/Courses.jsx:50-51 | the ring classes exactly when the row is chosen |
| CourseRow.RowAgreesWithCalendar | src/Courses.jsx:34-40 | the row and the calendar agree on the highlight except on locked subjects |
| CourseRow.SetCourse | src/Courses.jsx:45-47 | forwards subject id, course code and type to the setter, or throws when none is wired |
| CourseRow.HandleChange | src/Courses.jsx:24-27 | forwards the flipped visibility, or throws when unwired |
| CourseRow.Remove | src/Courses.jsx:68 | forwards the row's subject and course ids, or throws when unwired |
| CourseRow.SetCourseMatchesEventClick | src/Courses.jsx:45-47 | the code button asks for the same toggle as clicking the course's calendar event |
| CourseRow.HandleChangeTwice | src/Courses.jsx:24-27 | pressing a row's visibility toggle twice gives back the store |
| CourseRow.RemoveTakesOutTheRow | src/Courses.jsx:68 | the remove button takes exactly that course out of its subject |
| ImportDialog.TagsInjective | src/components/menu/ImportModal.jsx:34-35 | checkbox ids name one subject or course each and never clash across kinds |
| ImportDialog.CourseIdsFor | src/components/menu/ImportModal.jsx:34-35 | every result of the subject code has its checkbox id listed, and every listed id is one of theirs; `CourseIdsInResultOrder` states the order |
| ImportDialog.CourseIdsInResultOrder | src/components/menu/ImportModal.jsx:34-35 | the ids are those of the subject's results one for one, in result order (`filter` then `map`) |
| ImportDialog.CourseIdsDistinct | src/components/menu/ImportModal.jsx:34-35 | results with distinct ids give distinct checkbox ids |
| ImportDialog.TagNotListed | src/components/menu/ImportModal.jsx:34-35 | an id that no result carries has no checkbox among them |
| ImportDialog.SubjectChange | src/components/menu/ImportModal.jsx:40-53 | ticking adds the subject and its courses not yet ticked; unticking removes both |
| ImportDialog.FilterKeepsNoDuplicates | src/components/menu/ImportModal.jsx:47-52 | filtering keeps a list free of repeats |
| ImportDialog.SubjectChangeNoDuplicates | src/components/menu/ImportModal.jsx:40-53 | ticking a subject never ticks a course twice |
| ImportDialog.CourseChange | src/components/menu/ImportModal.jsx:58-72 | ticking a course adds it and, if missing, its subject; unticking the last ticked course of a subject unticks the subject |
| ImportDialog.TickedCourses | src/components/menu/ImportModal.jsx:78-80 | the results whose checkbox is ticked, in result order |
| ImportDialog.TickedSubjects | src/components/menu/ImportModal.jsx:82-84 | the result subjects whose checkbox is ticked, in result order |
| ImportDialog.TickedSubjectImportsAllItsCourses | src/components/menu/ImportModal.jsx:40-89 | after ticking a subject, the import passes every one of its courses |
| ImportDialog.UntickedSubjectImportsNoneOfItsCourses | src/components/menu/ImportModal.jsx:40-89 | after unticking a subject, the import passes none of its courses |
| ImportDialog.UntickLastCourseDropsSubject | src/components/menu/ImportModal.jsx:64-70 | unticking the only ticked course of a subject unticks the subject |
| ImportDialog.ImportDialog.constructor | src/components/menu/ImportModal.jsx:9-16 | the dialog starts with nothing ticked |
| ImportDialog.ImportDialog.ReceiveResults | src/components/menu/ImportModal.jsx:13-16 | new results clear every tick |
| ImportDialog.ImportDialog.SubjectExists | src/components/menu/ImportModal.jsx:24-26 | the warning shows exactly when existing codes are given and contain the code |
| ImportDialog.ImportDialog.HandleSubjectChange | src/components/menu/ImportModal.jsx:40-53 | the selection becomes `SubjectChange` of the old one |
| ImportDialog.ImportDialog.HandleCourseChange | src/components/menu/ImportModal.jsx:58-72 | the selection becomes `CourseChange` of the old one |
| ImportDialog.ImportDialog.HandleImport | src/components/menu/ImportModal.jsx:77-89 | passes the ticked subjects and the ticked courses |
| ImportDialog.WarnedSubjectIsKept | src/components/menu/ImportModal.jsx:121-124 | a subject the dialog warns will be overwritten is left unchanged by the import |
| CourseParser.FirstPrefix | src/utils/serverApi.js:43-45 | the first listed weekday name that starts the text, if any |
| CourseParser.FindDay | src/utils/serverApi.js:43-45 | the day found is one of the weekday names the pattern lists |
| CourseParser.FindDayIsLeftmost | src/utils/serverApi.js:43-45 | the day found occurs in the text, no name occurs earlier, and absence means no name occurs anywhere |
| CourseParser.ParsedDayIsKnown | src/utils/serverApi.js:96 | every day the reader stores is one of the seven names the calendar resolves |
| CourseParser.NormalizeDay | src/utils/serverApi.js:96 | the one-name spelling fix; `ParsedDayIsKnown` states that every extracted day then resolves |
| CourseParser.ClockAt | src/utils/serverApi.js:47 | one or two hour digits, ':' and two minute digits at the start of the text |
| CourseParser.TimeAt | src/utils/serverApi.js:47 | the time-range pattern at the start of the text yields hour and minute groups of the admitted shapes |
| CourseParser.FindTime | src/utils/serverApi.js:47 | a time range found anywhere in the text has groups of the admitted shapes |
| CourseParser.FindTimeIsLeftmost | src/utils/serverApi.js:47 | the time found is the pattern's match at the leftmost position where it matches |
| CourseParser.ClockIsPaddedDigits | src/utils/serverApi.js:51-54 | a stored time is the matched digits with the hour padded to two |
| CourseParser.Clock | src/utils/serverApi.js:98-99 | the stored time built from the matched digits; `ClockIsPaddedDigits` states its form |
| CourseParser.SpaceRunEnd | src/utils/serverApi.js:57 | the end of the whitespace run is within bounds and no whitespace follows it |
| CourseParser.CloseParen | src/utils/serverApi.js:57 | the first ')' that comes before any line break |
| CourseParser.ParenGroupAt | src/utils/serverApi.js:57 | `\s+\((.*?)\)` at a position: the lazy group never contains ')' |
| CourseParser.ParenGroupShape | src/utils/serverApi.js:57 | a group found is a non-empty white-space run, '(', text without ')' or line break, and the first ')' after it |
| CourseParser.CloseParenFinds | src/utils/serverApi.js:57 | a ')' before any line break is always found, at or before that position |
| CourseParser.ParenGroupFinds | src/utils/serverApi.js:57 | white space up to a '(' followed by a ')' before any line break always yields a group |
| CourseParser.LazyCode | src/utils/serverApi.js:57 | the lazy first group is a prefix of the text without line breaks, and the type group contains no ')' |
| CourseParser.LazyCodeShortest | src/utils/serverApi.js:57 | the code group is the shortest line-break-free prefix followed by `\s+\(…\)`: the type group is the one at its end, and none starts earlier |
| CourseParser.LazyCodeFinds | src/utils/serverApi.js:57 | when `\s+\(…\)` starts at some position before any line break, the lazy match succeeds and ends no later |
| CourseParser.CodeMatch | src/utils/serverApi.js:57-58 | the match's type group contains no ')' |
| CourseParser.CodeMatchLeftmost | src/utils/serverApi.js:57-58 | the match is the lazy match from the first position where the pattern matches |
| CourseParser.CodeMatchNone | src/utils/serverApi.js:57-58 | there is no match exactly when the pattern matches from no position |
| CourseParser.LazySubject | src/utils/serverApi.js:61 | the group is a prefix of the code followed by a dash-number tail |
| CourseParser.SubjectMatch | src/utils/serverApi.js:61-62 | when it matches, the group is a prefix of the code and the rest is a dash, optional spaces and digits |
| CourseParser.LazySubjectShortest | src/utils/serverApi.js:61-62 | the group (for `SubjectMatch`, from position 0) is the shortest: no earlier cut leaves a dash-number tail, and it holds no line break |
| CourseParser.LazySubjectFinds | src/utils/serverApi.js:61-62 | whenever some cut before any line break leaves a dash-number tail, the match succeeds and its group is no longer than that cut |
| CourseParser.NumberMatch | src/utils/serverApi.js:72-73 | when it matches, the group is the non-empty run of digits that ends the code, just after a dash |
| CourseParser.NumberMatchAt | src/utils/serverApi.js:72-73 | whenever a dash is followed by nothing but one or more digits, the match is exactly those digits |
| CourseParser.SubjectOf | src/utils/serverApi.js:60-67 | the subject code taken from a course code never contains a space |
| CourseParser.SubjectOfIsFirstWord | src/utils/serverApi.js:60-67 | the subject is the code with its dash-number suffix stripped (when it has one), up to its first space |
| CourseParser.ParseRow | src/utils/serverApi.js:43-102 | a row yields a course exactly when it has a day and a time range |
| CourseParser.ParsedRowFields | src/utils/serverApi.js:86-102 | a produced course copies the name and place, trims the instructor, fixes the day, has empty notes and is shown |
| CourseParser.ParsedRowIsWellShaped | src/utils/serverApi.js:86-102 | a produced course has a day the calendar can place and two five-character times |
| CourseParser.ParsedRowCodes | src/utils/serverApi.js:57-73 | a produced course's subject is `SubjectOf` of the matched code, and its number is the digits after the final dash, or the whole code without one |
| CourseParser.ParsedKindIsCapitalized | src/utils/serverApi.js:92-93 | the stored type is the matched type capitalized |
| CourseParser.Outcomes | src/utils/serverApi.js:24-106 | one outcome per row: what that row yields at its own position |
| CourseParser.Produced | src/utils/serverApi.js:104 | no more courses are produced than there are outcomes |
| CourseParser.ParsedRows | src/utils/serverApi.js:24-106 | at most one course per row |
| CourseParser.ProducedAtPositions | src/utils/serverApi.js:87 | when ids are positions, produced ids strictly increase and stay below the row count |
| CourseParser.ProducedKeepsAll | src/utils/serverApi.js:104 | every course an outcome holds is among the produced ones |
| CourseParser.ParsedRowsAreRowPositions | src/utils/serverApi.js:86-104 | every produced course is what its own row yields, with the row's position as its id; every row that yields a course has it among the results |
| CourseParser.SkippedRowLeavesGap | src/utils/serverApi.js:49-105 | a row that yields nothing leaves a gap: the next course keeps its own row position |
| CourseParser.Noted | src/utils/serverApi.js:75-84 | the accumulator gains an entry for the code exactly when none is there, with the next position as id |
| CourseParser.NotedKeepsShape | src/utils/serverApi.js:75-84 | noting a code keeps ids equal to positions and codes unique |
| CourseParser.AccumulatedFromFacts | src/utils/serverApi.js:75-84 | reading outcomes keeps the accumulator's shape, keeps old entries, and records every produced course's subject |
| CourseParser.AccumulatedFacts | src/utils/serverApi.js:13-107 | reading rows keeps ids equal to positions and codes unique, and never drops an entry |
| CourseParser.SubjectAccumulator.constructor | src/utils/serverApi.js:172 | the accumulator starts empty |
| CourseParser.SubjectAccumulator.Note | src/utils/serverApi.js:75-84 | the entries become `Noted` of the old entries |
| CourseParser.ParseCourseData | src/utils/serverApi.js:13-107 | a missing table yields nothing; otherwise exactly the row courses, with the accumulator advanced accordingly |
| ServerApi.Previous | src/utils/serverApi.js:126-134 | the semester before is a different fall or spring semester starting in the same or the previous year |
| ServerApi.Current | src/utils/serverApi.js:119-134 | the current semester is a fall (1) or spring (2) one |
| ServerApi.GetSemesters | src/utils/serverApi.js:119-138 | the pushes produce exactly the labels of the current semester and the two before it |
| ServerApi.GetCurrentSemester | src/utils/serverApi.js:145-147 | the first entry of the list: the current semester's label |
| ServerApi.TemplateInjective | src/utils/serverApi.js:126-134 | a label `start-end-half` with non-negative numbers determines its start year and half |
| ServerApi.LabelInjective | src/utils/serverApi.js:126-134 | distinct semesters have distinct labels |
| ServerApi.SemestersDistinct | src/utils/serverApi.js:119-138 | the three offered semesters are pairwise distinct |
| ServerApi.FindIndex | src/utils/serverApi.js:237-247 | `findIndex` on the eight compared fields: the first index with that key, or -1 when none has it |
| ServerApi.FirstOccurrencesAreFirst | src/utils/serverApi.js:234-249 | every kept course is the first with its key |
| ServerApi.FirstOccurrencesDistinctKeys | src/utils/serverApi.js:234-249 | the kept courses have pairwise distinct keys |
| ServerApi.FirstOccurrencesCover | src/utils/serverApi.js:234-249 | every input key is kept by its first occurrence |
| ServerApi.FirstOccurrencesSubseq | src/utils/serverApi.js:234-249 | the kept courses are a subsequence of the input |
| ServerApi.DedupFacts | src/utils/serverApi.js:233-249 | de-duplication keeps a subsequence with distinct keys that covers every key by its first occurrence |
| ServerApi.Dedup | src/utils/serverApi.js:234-249 | the `filter`/`findIndex` de-duplication; `DedupFacts` states what it keeps |
| ServerApi.SearchBySubject | src/utils/serverApi.js:233-257 | the combined and renumbered subject search; `SearchBySubjectFacts` states its result |
| ServerApi.Reindex | src/utils/serverApi.js:252-255 | same courses, in order, with their positions as ids |
| ServerApi.SearchBySubjectFacts | src/utils/serverApi.js:233-257 | the result's ids are positions, its keys are distinct, and every course from either search is represented |
| ServerApi.Intersect | src/utils/serverApi.js:294-306 | keeps exactly the courses whose key occurs in the other result, in order |
| ServerApi.RelevantSubjects | src/utils/serverApi.js:309-313 | keeps exactly the subjects some kept course belongs to, in order |
| ServerApi.CombinedCoursesFoundByBoth | src/utils/serverApi.js:294-319 | every combined course was found by both searches, and ids are positions |
| ServerApi.SearchBySubjectAndInstructor | src/utils/serverApi.js:294-320 | the intersection of the two searches, renumbered, with the relevant subjects; the `Combined…` lemmas state its result |
| ServerApi.CombinedSubjectsHaveCourses | src/utils/serverApi.js:309-313 | every combined subject has a combined course |
| ServerApi.CombinedKeepsCommonCourses | src/utils/serverApi.js:294-306 | every subject-search course whose key the instructor search also found is kept |
| ServerApi.CoursesOfSubject | src/utils/serverApi.js:181-183 | keeps exactly the courses of the searched subject code, in order |
| Forms.EmptyRequiredAt | src/components/subjects/CourseAdder.jsx:22-31 | some required input is empty exactly when the check flags one |
| Forms.RequiredValidity | src/components/subjects/Subject.jsx:54-64 | one message per required input: the "fill in" text exactly for the empty ones |
| Forms.CheckRequired | src/components/subjects/CourseAdder.jsx:22-31 | the loop over the required inputs returns those messages and whether any was empty |
| Forms.VerdictOf | src/components/subjects/CourseAdder.jsx:38-60 | reserved code first, then empty inputs, then (where checked) the time order, else accepted |
| Forms.SubjectFormSkipsTimeOrder | src/components/subjects/Subject.jsx:70-88 | a filled form with an allowed code passes the subject panel's form whatever its times, and the course adder exactly when the start comes before the end |
| Forms.AdderSubmit | src/components/subjects/CourseAdder.jsx:15-61 | the `addCourse` call is made exactly for an accepted submission, with those fields |
| Forms.ErrorsFor | src/components/subjects/CourseModal.jsx:51-60 | one error flag per required input, set exactly for the empty ones |
| Forms.CourseEditor.constructor | src/components/subjects/CourseModal.jsx:17-36 | the inputs hold the course's values, no error is flagged, the dialog is closed |
| Forms.CourseEditor.CourseStored | src/components/subjects/CourseModal.jsx:25-36 | a re-render after the store changed: the dialog's course becomes the stored course with the same id, and the inputs, flags and visibility are kept |
| Forms.CourseEditor.ShowModal | src/Courses.jsx:65 | opening the dialog changes only its visibility |
| Forms.CourseEditor.Edit | src/components/subjects/CourseModal.jsx:128-215 | typing changes only the input values |
| Forms.CourseEditor.HandleSave | src/components/subjects/CourseModal.jsx:44-90 | flags empty inputs, and calls `updateCourse` and closes exactly for an accepted submission |
| Forms.CourseEditor.HandleCancel | src/components/subjects/CourseModal.jsx:92-114 | puts the values of the course as last stored back into the inputs, clears the flags and closes |
| Forms.CollapseSpaces | src/components/menu/SubjectAdder.jsx:32 | `replace(/\s+/g, '_')`: no whitespace remains, the result is no longer than the input, and non-empty input gives non-empty output |
| Forms.CollapseUnspaced | src/components/menu/SubjectAdder.jsx:32 | text without whitespace is unchanged |
| Forms.CollapseLeadingRun | src/components/menu/SubjectAdder.jsx:32 | a whole run of whitespace at the front becomes a single `_` |
| Forms.CollapseWord | src/components/menu/SubjectAdder.jsx:32 | a word without whitespace at the front is copied unchanged |
| Forms.CollapseWordThenRun | src/components/menu/SubjectAdder.jsx:32 | a word, then a whole run of whitespace, then the rest: the word, one `_`, and the replacement of the rest; every string splits this way, so this fixes the result |
| Forms.CodeFromName | src/components/menu/SubjectAdder.jsx:32 | the code derived from a name: the replacement, lower-cased; `CodeFromNameRun` and `SlugHasNoSpace` state what it yields |
| Forms.CodeFromNameRun | src/components/menu/SubjectAdder.jsx:32 | the derived code, run by run: the lower-cased word, `_` for the run of whitespace, then the code of the rest |
| Forms.SubjectAdderClick | src/components/menu/SubjectAdder.jsx:22-36 | no call when both inputs are empty; the name defaults to the code, the code to the slugged name |
| Forms.SlugHasNoSpace | src/components/menu/SubjectAdder.jsx:32 | a code derived from a name contains no whitespace |
| Settings.FieldsAt | src/contexts/SettingsContext.jsx:50-57 | spreading a record entry gives its fields; spreading a missing or non-record entry gives nothing |
| Settings.Set | src/contexts/SettingsContext.jsx:58-63 | `{...m, [key]: value}`: the key holds the value and every other key is unchanged |
| Settings.SettingsStore.constructor | src/contexts/SettingsContext.jsx:14-25 | the default settings |
| Settings.SettingsStore.UpdateSettings | src/contexts/SettingsContext.jsx:49-64 | the settings become `SettingsUpdate` of the old settings |
| Settings.SettingsUpdate | src/contexts/SettingsContext.jsx:49-64 | the updater of the settings store; `ShowUpdateTouchesOneFlag`, `OtherUpdateTouchesOneSetting` and `SettingsUpdateIdempotent` state its effect |
| Settings.ShowUpdateTouchesOneFlag | src/contexts/SettingsContext.jsx:50-57 | a `show` update sets that one flag; other flags and other settings keep their values |
| Settings.OtherUpdateTouchesOneSetting | src/contexts/SettingsContext.jsx:58-63 | any other update sets one top-level setting and keeps the rest |
| Settings.SettingsUpdateIdempotent | src/contexts/SettingsContext.jsx:49-64 | repeating an update changes nothing more |
| Settings.AppState.constructor | src/contexts/StateContext.jsx:14-32 | the default state |
| Settings.AppState.UpdateState | src/contexts/StateContext.jsx:57-86 | the state becomes `StateUpdate` of the old state |
| Settings.StateUpdate | src/contexts/StateContext.jsx:57-86 | the updater of the state store; `StateSettingsAgree`, `CurrentStateUpdateTouchesOneEntry`, `UnknownKindIsNoOp` and `StateUpdateIdempotent` state its effect |
| Settings.AppState.UpdateSettings | src/contexts/StateContext.jsx:88-94 | the alias performs the same update |
| Settings.StateSettingsAgree | src/contexts/StateContext.jsx:58-76 | `show` and `misc` change the nested settings as the settings store changes its own, and leave the menu state alone |
| Settings.CurrentStateUpdateTouchesOneEntry | src/contexts/StateContext.jsx:77-85 | a `currentState` update changes one menu entry and nothing else |
| Settings.UnknownKindIsNoOp | src/contexts/StateContext.jsx:57-86 | other kinds leave the state unchanged, where the settings store would set a key |
| Settings.StateUpdateIdempotent | src/contexts/StateContext.jsx:57-86 | repeating a state update changes nothing more |
| Settings.DefaultsAgree | src/contexts/StateContext.jsx:14-32 | the two stores start from the same settings except the state store's extra `name` flag |
| SortableTable.NextOrder | src/components/table/TableHead.jsx:8 | descending exactly when the same column is clicked while ascending, ascending otherwise |
| SortableTable.SortIcon | src/components/table/TableHead.jsx:18-24 | "-up" for the sorted sortable column ascending, "-down" descending, "" otherwise |
| SortableTable.ClickTarget | src/components/table/TableHead.jsx:26 | only sortable headers react to clicks, with their own accessor |
| SortableTable.TableHead.constructor | src/components/table/TableHead.jsx:4-5 | no sort field, ascending |
| SortableTable.TableHead.HandleSortingChange | src/components/table/TableHead.jsx:7-12 | records the column and its next order and asks the table to sort by them |
| SortableTable.ClicksAlternate | src/components/table/TableHead.jsx:7-12 | repeated clicks on a column alternate between descending and ascending |
| SortableTable.IconFollowsClick | src/components/table/TableHead.jsx:7-24 | after a click the clicked column shows an arrow and every other column shows none |
| SortableTable.DayPos | src/components/subjects/CourseTable.jsx:52-54 | `indexOf` in the week: -1 exactly for a non-weekday, else the weekday's position |
| SortableTable.Compare | src/components/subjects/CourseTable.jsx:47-60 | rows without the field sort last and two such rows compare equal; weekdays compare by their place in the week, reversed when descending |
| SortableTable.CompareAsWritten | src/components/subjects/CourseTable.jsx:47-60 | the header-click comparator as written; `AsWrittenMissingPairInconsistent` shows its defect |
| SortableTable.DefaultCompareAsWritten | src/components/subjects/CourseTable.jsx:25-31 | the default-order comparator as written; `AsWrittenMissingPairInconsistent` shows its defect |
| SortableTable.DefaultCompare | src/components/subjects/CourseTable.jsx:25-31 | the corrected default-order comparator: rows without the field sort last and two such rows compare equal |
| SortableTable.AsWrittenMissingPairInconsistent | src/components/subjects/CourseTable.jsx:25-27 | as written, both comparators put each of two rows without the field after the other; the corrected ones call them equal |
| SortableTable.CompareAntisymmetric | src/components/subjects/CourseTable.jsx:25-60 | both corrected comparators are antisymmetric |
| SortableTable.DescNegatesAsc | src/components/subjects/CourseTable.jsx:31 | descending negates ascending on rows that have the field |
| SortableTable.DefaultCompareAgrees | src/components/subjects/CourseTable.jsx:25-31 | off the weekday column the default-order comparator equals the header-click one |
| SortableTable.Insert | src/components/subjects/CourseTable.jsx:46-61 | inserting adds exactly that row to the multiset of rows |
| SortableTable.Sort | src/components/subjects/CourseTable.jsx:46-61 | the sorted copy is a permutation of the rows |
| SortableTable.InsertSorted | src/components/subjects/CourseTable.jsx:46-61 | inserting into a sorted list keeps it sorted |
| SortableTable.SortSorted | src/components/subjects/CourseTable.jsx:46-61 | the sorted copy is sorted by the comparator |
| SortableTable.MissingFieldSortsLast | src/components/subjects/CourseTable.jsx:47-48 | in a sorted table every row after a row without the field lacks it too |
| SortableTable.DaySortFollowsWeek | src/components/subjects/CourseTable.jsx:51-56 | sorting by day orders adjacent rows by their place in the week, reversed when descending |
| SortableTable.DefaultOrdering | src/components/subjects/CourseTable.jsx:21-23 | the default order never uses the weekday rule and falls back to id ascending |
| SortableTable.DefaultIsByCode | src/components/subjects/CourseTable.jsx:8-23 | the course table's default order is by code, ascending |
| SortableTable.CourseTable.constructor | src/components/subjects/CourseTable.jsx:37-38 | the table starts as the default-order sort of its data |
| SortableTable.CourseTable.DataChanged | src/components/subjects/CourseTable.jsx:40-42 | new data is sorted by the default order again |
| SortableTable.CourseTable.HandleSorting | src/components/subjects/CourseTable.jsx:44-65 | an empty field leaves the table unchanged, otherwise it holds the sort by that field and order |
| SortableTable.HandleSortingResult | src/components/subjects/CourseTable.jsx:44-65 | after a header click the table holds the same rows, sorted, with rows lacking the field last |

## Left out

- Network access, DOM parsing of the listing and the HTML cell extraction: `ParseCourseData` takes the rows' cell texts, or none for a response without a result table.
- `searchCoursesByInstructor` and the two fetch wrappers: they only fetch and call the modelled parser, and their results are parameters of `SearchBySubjectAndInstructor`.
- Persistence in `localStorage` and loading saved data at start-up: the store starts empty.
- Random colour generation: colours are parameters, one per new subject.
- `isColorDark` and the event text colour: floating-point arithmetic.
- ISO date text and time zones: an event's date is a day number; the clock is a parameter (`today`, `year`, `month`).
- FullCalendar options other than hidden days, and all rendering markup.
- `localeCompare` with numeric collation: `Text.LexCmp` (code-point order) stands in for it.
- SortableTable.Sort: the library sort algorithm and its stability are not modelled; an insertion sort stands in, so only permutation and sortedness are promised.
- SortableTable.CourseTable.constructor: the default order sorts with the corrected `DefaultCompare`, so the order among rows that lack the sort field is the model's choice (they compare equal); as written that comparator gives no consistent order there (see Findings).
- SortableTable.CourseTable.DataChanged: re-sorts with the corrected `DefaultCompare`, with the same consequence for rows that lack the sort field.
- SortableTable.CourseTable.HandleSorting: sorts with the corrected `Compare`, with the same consequence for rows that lack the sort field.
- Unicode case mapping beyond ASCII and the Hungarian accented letters.
- SubjectView.NonNegativeNumber: JavaScript's `Number` conversion is modelled for integer texts only; decimal, exponent, hexadecimal, binary (`0b`) and octal (`0o`) texts and `Infinity` count as non-numeric.
- Store.ToggleKind: spreading a string-valued selection into per-character keys cannot happen through the modelled operations and is not modelled.
- Settings.SettingsUpdate: spreading a string-valued `show` entry into per-character keys is not modelled; a non-record entry spreads to nothing.
- Settings.StateUpdate: the same simplification as `SettingsUpdate` for non-record entries.
- React's batching of state updates and callbacks that see stale state: each call sees the state left by the previous one.
- The import dialog's reset effect runs on every arrival of new results; React's reference-equality trigger is not modelled.
- Browser validity-message ordering and `reportValidity` pop-ups: the forms return the messages they set.
- Older copies of components (`src/App.jsx`, `src/Menu.jsx`, `src/Subjects.jsx`, `src/SubjectAdder.jsx`, `src/Footer.jsx`) and `ServerQuery.jsx` are not part of this model; among them `src/Subjects.jsx:325-331` renders the course row with its callbacks, unlike the current components.

## Findings

| source | as written | input that shows it | evidently intended | confidence | as-written member | corrected member |
|---|---|---|---|---|---|---|
| src/components/subjects/Subject.jsx:125 | `choosen >= 0` on a scalar selection that holds a course code converts the code to a number | a subject in single-course mode with course "A" chosen: `"A" >= 0` is false, so the lock icon shows | check-circle for every single-course selection; lock only for -1 | high, not executed | SubjectView.GetIcon, SubjectView.GetIconLocksTextCodes | SubjectView.IconOf |
| src/components/subjects/CourseTable.jsx:25-27, 47-49 | the comparator returns 1 when the first row lacks the field, before it tests whether both lack it, so the "both missing" test is dead | two rows without the field: each compares after the other | two rows without the field compare equal, making the comparator antisymmetric | high, not executed | SortableTable.CompareAsWritten, SortableTable.DefaultCompareAsWritten, SortableTable.AsWrittenMissingPairInconsistent | SortableTable.Compare, SortableTable.DefaultCompare, SortableTable.CompareAntisymmetric, SortableTable.SortSorted |
