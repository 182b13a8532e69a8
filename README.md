# Smart Examroom Allocator — a Dafny model

The Smart Examroom Allocator seats the students of an internal examination
in classrooms. The allocator runs on the server (`allocate_students_updated`
in `app.py`) and proceeds in these steps:

- it keeps the students of the selected years;
- it walks the years in sorted order, and within a year the branches in
  sorted order;
- it fills classrooms in input order, each with at most
  `min(Capacity, 40)` students of one year and one branch;
- for each room it records the first and last roll number and the number of
  left-handed students;
- it fails as soon as the classrooms run out.

The page (`static/script.js`) first checks the form: files, years, the exam
date and the exam times. It then sends the request and shows the reply in
two views:

- an on-screen table that groups the records by room under one room cell per
  room;
- a PDF table that keeps the reply's order and blanks the room column when
  a row repeats the room above it.

The PDF file is named after the exam date.

The model has the following modules:

- `Wrappers`: `Option` and `Result`.
- `Text`:
  - JavaScript/Python strings as `seq<char>`;
  - decimal text;
  - string order by character, which agrees with JavaScript and Python for
    characters of the Basic Multilingual Plane;
  - insertion sort;
  - `split`/`join`;
  - `replace(/x/g, y)`;
  - `trim()`.
- `Grouping`: the dictionary-building loop shared by `groupByRoom` and the
  two Python grouping loops. It is written as a method, `GroupBy`, and proved
  against first-seen keys and `Select` groups.
- `Allocator`:
  - `allocate_students_updated` as imperative methods that mirror the
    source's loops: `FillRoom`, `SeatBranch`, `SeatBranches`, `SeatYear`,
    `SeatYears` and `AllocateStudents`;
  - `Allocation`, a functional plan that each method is proved equal to.
- `AllocationProperties`: what the allocator promises, proved about the
  plan. This covers conservation, room bounds, no mixing, ordering, totals
  and failure.
- `Results`:
  - the table rows and PDF rows, as functions and as the loops that build
    them;
  - what each view shows;
  - when the two views agree and when they differ;
  - `Object.keys` order.
- `Validation`:
  - the guard chain of the Generate click;
  - `formatTime`;
  - `parseInt` on the hour;
  - the PDF file name.
- `Page`: the page's globals as a class. It models the Generate click
  (`CheckForm`, `Proceed`, `ShowReply`) and the Download PDF click.

## Model

| member | source | states |
|---|---|---|
| Grouping.GroupBy | static/script.js:130-137 | the keys come back in first-seen order, one group per key and no other; each group holds exactly the records with that key, in input order |
| Grouping.GroupingIsPermutation | static/script.js:130-137 | concatenating the groups in key order loses and invents no record: it is a permutation of the input, of the same length |
| Grouping.SelectPositions | static/script.js:132-134 | a group is the records with that key taken at strictly increasing positions, and every record with that key is among them |
| Grouping.Select | static/script.js:133-134 | every record of group `k` has key `k` and comes from the input, and a group is never longer than the input |
| Grouping.FirstSeenDistinct | static/script.js:133 | a key is created only once: the key list has no duplicates |
| Grouping.FirstSeenCovers | static/script.js:133 | every record's key is in the key list |
| Grouping.FirstSeenOrder | static/script.js:132-133 | keys are listed in the order of their first occurrence in the input |
| Text.SortStrings | app.py:39 | `sorted` returns a permutation of its input |
| Text.SortStringsSorted | app.py:39 | `sorted` returns its input in ascending order |
| Text.SortStringsStrict | app.py:59 | sorting distinct dictionary keys gives strictly ascending keys, with the same elements |
| Text.LexLessTotal | app.py:39 | any two different strings are ordered one way or the other |
| Text.LexLessTransitive | app.py:39 | string order is transitive |
| Text.JoinSplit | static/script.js:245 | joining the parts of `split(sep)` with `sep` gives back the string |
| Text.SplitJoin | static/script.js:245 | splitting a join of separator-free parts gives back the parts |
| Text.ReplaceAll | static/script.js:240 | same length; each `x` becomes `y` and every other character is kept |
| Text.TrimStartSpec | static/script.js:62 | `trim` drops exactly the leading whitespace: the result is a suffix that starts with a non-space, and only whitespace was dropped |
| Text.TrimEndSpec | static/script.js:62 | `trim` drops exactly the trailing whitespace: the result is a prefix that ends with a non-space, and only whitespace was dropped |
| Text.TrimEmpty | static/script.js:62-66 | a trimmed date is empty (falsy) exactly when the typed text is all whitespace |
| Text.DigitsValueOfNatToString | static/script.js:216 | the decimal text of a number reads back as that number |
| Text.NatToStringInjective | static/script.js:173 | different counts print differently |
| Allocator.SelectedStudents | app.py:25 | keeps every student whose year is selected and no other, with multiplicity |
| Allocator.SelectedStudentsInOrder | app.py:25 | the comprehension keeps input order: its result is the students list read at strictly increasing positions, and every student of a selected year is read at one of them |
| Allocator.FillRoom | app.py:81-83 | the room takes the first `min(capacity, remaining)` students in order, and the rest stay queued in order |
| Allocator.PlanRooms | app.py:68-105 | placement `j` uses classroom `idx + j`, which exists, and seats between 1 and `min(Capacity, 40)` students |
| Allocator.PlanRoomsAppend | app.py:62-105 | seating queues one after another equals seating the first and then the rest from the room where it stopped |
| Allocator.SeatBranch | app.py:63-105 | fails exactly when the plan runs out of rooms, and then names this year and branch; on success the entries, the count seated and the next classroom index are the plan's, and every student of the branch is seated |
| Allocator.SeatBranches | app.py:62-105 | seating the branches in the given order succeeds exactly when the plan does; the entries, count and next index are the plan's, or the failing branch is reported |
| Allocator.SeatYear | app.py:48-105 | groups the year's students by branch, sorts the branch names and seats them, with the plan's outcome |
| Allocator.SeatYears | app.py:47-105 | seating the years in the given order ends with the plan's entries and total, or with the plan's failing year and branch |
| Allocator.AllocateStudents | app.py:14-114 | the step-by-step allocation returns exactly the result of the functional plan |
| AllocationProperties.PlanRoomsConserves | app.py:66-83 | the students seated room after room are exactly the queued students, in queue order |
| AllocationProperties.PlanRoomsSlices | app.py:66-83 | every room is filled from one contiguous run of one branch queue |
| AllocationProperties.RoomsInInputOrder | app.py:25-92 | on success the students of every room occur in the uploaded students list in the same order, so `first_roll` and `last_roll` are the room's first and last student in input order |
| AllocationProperties.QueuesPermutation | app.py:31-63 | the year and branch queues together hold a permutation of the filtered students |
| AllocationProperties.AllocationSeatsEveryone | app.py:25-111 | on success the seated students are a permutation of the filtered students, and `total_allocated == total_students` |
| AllocationProperties.AllocationRooms | app.py:69-113 | on success entry `j` is classroom `j`, so each classroom is used at most once and in input order; each entry seats between 1 and `min(Capacity, 40)` students; `rooms_used` is the number of entries and at most the number of classrooms |
| AllocationProperties.AllocationNoMixing | app.py:47-102 | every room's students share the room's year and branch |
| AllocationProperties.AllocationOrdered | app.py:39-62 | entries follow ascending year and, within a year, ascending branch |
| AllocationProperties.EntryOfRoom | app.py:86-102 | an entry gives the room's id, year and branch; its first and last roll numbers are those of its first and last student; its total is its size; its left-handed count is the number of `L` students, or `None` when there are none |
| AllocationProperties.CountLeftHandedZero | app.py:86 | the left-handed count is zero exactly when no student of the room has hand type `L` (a missing hand type counts as `R`) |
| AllocationProperties.AllocationEnoughRooms | app.py:68-74 | with at least as many classrooms as selected students, the allocation succeeds |
| AllocationProperties.AllocationFailureIsReal | app.py:69-74 | a failure carries the out-of-classrooms message for a year and branch that really has a selected student |
| AllocationProperties.AllocationTotals | app.py:100-113 | on success `total_allocated` is the sum of the entries' `total_students`, and `rooms_used` is the number of entries |
| Results.LeftHandedTextMeaning | static/script.js:174 | the left-handed cell is empty exactly when the value is `null` or `0`; otherwise it is the count in decimal |
| Results.CellsOfDistinguish | static/script.js:170-175 | equal cells mean equal branch, roll range, total and left-handed text |
| Results.BuildTable | static/script.js:162-177 | the nested row loop builds the first-seen table |
| Results.BuildRoomRows | static/script.js:165-176 | a room's rows: the room cell, spanning the group, on the first row only, and the record cells on each row |
| Results.TableShows | static/script.js:162-177 | the table has one row per record; its records are a permutation of the reply; row by row the table prints the cells of the records in display order (rooms in key order, each room's records in reply order), and once the room cells' spans are laid out each row sits under its own record's room |
| Results.BuildPdfRows | static/script.js:208-220 | the `tableData` loop builds the PDF rows |
| Results.PdfShows | static/script.js:209-219 | one PDF row per record, with that record's cells; the room column is blank exactly when the room equals the previous row's room (or is itself empty), and otherwise shows the row's own room |
| Results.PdfReadsRooms | static/script.js:209-219 | reading the PDF room column downwards, with a blank meaning "same as above", gives every record its own room |
| Results.DistinctRoomsViewsAgree | static/script.js:162-220 | with distinct room ids each table row is a one-row room cell with the same room and cells as the PDF row |
| Results.AllocatorViewsAgree | static/script.js:162-220 | for a reply computed from classrooms with distinct ids, the table and the PDF list the same rooms and cells in the same order |
| Results.InterleavedRoomsViewsDiffer | static/script.js:162-220 | with a room's records interleaved with another room's, the table pulls them under one cell spanning two rows, while the PDF keeps reply order and prints the room twice |
| Results.JsObjectKeysPermutation | static/script.js:164 | `Object.keys` lists every key once, with array-index keys before all others |
| Results.JsObjectKeysNonNumeric | static/script.js:164 | without array-index room ids, `Object.keys` keeps first-seen order |
| Results.TwoNumericRoomsSwapped | static/script.js:164 | two numeric rooms that arrive in descending order are swapped by the table as written but kept by the first-seen table |
| Results.NumericRoomsReordered | static/script.js:164 | rooms "201" then "101": the table as written shows 101 first, while the first-seen table and the PDF show 201 first |
| Validation.ValidateFirstFailure | static/script.js:51-88 | the chain reports an error exactly when that check fails and every earlier check passes, and accepts exactly when no check fails |
| Validation.ValidateStopsAt | static/script.js:51-88 | for each error: it is reported exactly when its own check fails and all checks before it pass |
| Validation.MissingFilesFirst | static/script.js:51-54 | a missing file is reported whatever else is wrong |
| Validation.ManualDateWins | static/script.js:66-78 | a non-blank typed date makes the picker irrelevant; on success the date is the typed one and matches `DD/MM/YYYY` |
| Validation.AcceptedTimes | static/script.js:80-88 | on success both times are present and the end time is strictly after the start time as strings |
| Validation.TimesOutOfOrderMeaning | static/script.js:85-88 | for `HH:MM` inputs the string check rejects exactly the end times that are not later in minutes |
| Validation.ClockOrder | static/script.js:85 | for `HH:MM` values, string order is time order |
| Validation.MessagesDistinct | static/script.js:51-87 | the six checks show six different messages |
| Validation.DatePatternParts | static/script.js:67-68 | a date that passes the pattern splits at `/` into two, two and four digits |
| Validation.ClockTextCases | static/script.js:247-249 | hour 0 gives `12:mm AM`; 1 to 11 give `h:mm AM`; 12 gives `12:mm PM`; 13 to 23 give `h-12:mm PM`; the minutes are copied verbatim |
| Validation.ClockTimeText | static/script.js:244-250 | `formatTime` of an `HH:MM` value is the 12-hour text of its hour with its minutes |
| Validation.Hour12RoundTrip | static/script.js:247-248 | the 12-hour value is between 1 and 12, and together with AM/PM it gives back the hour |
| Validation.FormatTimeInjective | static/script.js:244-250 | different `HH:MM` values format differently |
| Validation.ParseIntDigits | static/script.js:246 | `parseInt` of a digit string is its decimal value |
| Validation.PdfFileNameDate | static/script.js:240 | the name is `seating_arrangement_` + the date with every `/` replaced by `-` + `.pdf`; it contains no `/`; for a date without `-` the replacement can be undone |
| Validation.TypedDateFileName | static/script.js:240 | a typed `DD/MM/YYYY` date gives `seating_arrangement_DD-MM-YYYY.pdf` |
| Page.StoredDateOutcome | static/script.js:66-88 | `examDateFinal` is replaced exactly when the checks get past the date, even if a time check then fails; on success it is the accepted date |
| Page.TimeFailureStoresDate | static/script.js:72-82 | a form with a valid date and missing times is rejected but still replaces the stored date |
| Page.SeatingPage.constructor | static/script.js:43-46 | no reply kept, empty date and time globals, nothing shown |
| Page.SeatingPage.CheckForm | static/script.js:51-88 | the outcome is the chain's; `examDateFinal` becomes the date once the date check passes and is otherwise unchanged |
| Page.SeatingPage.Generate | static/script.js:49-120 | on a failed check only the error is shown; otherwise time, date and weekday are stored and the reply is shown; only successful replies are kept |
| Page.SeatingPage.Proceed | static/script.js:90-119 | stores the time text and the date with its weekday, hides the error and results, then shows the reply |
| Page.SeatingPage.ShowReply | static/script.js:105-119 | a successful reply is kept and its totals, date, time and first-seen table are shown; an unsuccessful one shows its error; a thrown error shows `An error occurred: ` + its message |
| Page.SeatingPage.DownloadPdf | static/script.js:187-241 | nothing without a kept reply; otherwise the title and header lines, one body row per record of the kept reply, and the file name from `examDateFinal` |

## Left out

- DOM wiring, CSS classes, the loading indicator and `scrollIntoView` have no behaviour to state. The model keeps only the text of the error element and the content of the results section.
- The 5-second `setTimeout` that hides the error is not modelled; the model has no clock. The error text is kept as the last one shown.
- The network is not modelled. The `fetch`, `FormData` and JSON decoding are replaced by a `Reply` parameter: a decoded reply, or a thrown error with its message.
- The drawing done by jsPDF is not modelled, because it is foreign library code. This covers fonts, coordinates, `autoTable` styles, the white line of `didDrawCell` and `doc.save`. Only the title and header texts, the body rows and the file name are.
- `getDayFromDate` and `new Date(...).toLocaleDateString('en-GB')` are not modelled, because they depend on the locale and time zone of the JavaScript `Date` library. They are the parameters `weekday` and `pickerDate`.
- Markup is not modelled. The HTML string is modelled as structured rows (a room cell with its span, then four record cells); escaping and markup text are not.
- Flask routing, `request.files`, `jsonify`, the route's own checks and its catch-all exception handler are web plumbing (app.py:116-150) and are not part of this model.
- `parse_csv` is a wrapper over `csv.DictReader` and is not part of this model. Students and classrooms are already-parsed records; `Capacity` is an integer, so a non-numeric capacity (a `ValueError` in `int(...)`) and missing CSV columns (a `KeyError`) are not modelled.
- Allocator.AllocateStudents: requires every classroom capacity to be at least 1. The source's loop never ends once a room with capacity 0 or less is reached while students remain, because it seats nobody there and never advances `classroom_idx`. Inputs whose unusable rooms are never reached terminate in the source but are excluded here.
- Validation.ParseIntDigits: states `parseInt` only for digit strings. JavaScript numbers are doubles, so digit strings beyond 2^53 lose precision; that rounding is not modelled.
- Results.TableShows: room ids are assumed to be plain keys. A room id equal to an inherited property name such as `constructor` makes `groupByRoom` push onto a function and throw; this is not modelled.
- Text.LexLessTotal: string order is by `char`, which matches JavaScript's UTF-16 comparison and Python's code-point comparison for characters of the Basic Multilingual Plane only.

## Findings

| source | as written | input that shows it | evidently intended | confidence | as-written member | corrected member |
|---|---|---|---|---|---|---|
| static/script.js:164 | the table walks `Object.keys(grouped)`, which lists array-index keys such as `"101"` first, in ascending numeric order, before all other keys | a reply whose rooms are `"201"` then `"101"` (classrooms listed in that order): the table shows room 101 first, while the PDF and the allocator's order show 201 first | the table lists the rooms in the order the allocator used them, as the PDF does | not executed | Results.TwoNumericRoomsSwapped | Results.AllocatorViewsAgree |
