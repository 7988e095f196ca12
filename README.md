# Class scheduler: schedule enumerator and wizard page, modelled in Dafny

The model covers two parts of the class scheduler.

The backend enumerator (`backend.0/scheduler/schedule_generator.py`) does three things:

- it groups the meeting times of the candidate sections by CRN (course registration number);
- it tests a list of meetings for a time conflict;
- it recursively enumerates every conflict-free schedule that takes exactly one section of each requested course.

The frontend wizard page (`frontend/src/app/page.tsx`) does four:

- it converts 12-hour clock strings such as `"2:30 PM"` to `"14:30:00"`;
- it keeps only the break periods with both times filled in and converts them;
- it writes each course as `"SUBJECT-NUMBER"`;
- it moves through four steps: courses, breaks, preferences, and generated schedules.

Files:

- `results.dfy` (module `Results`): `Option`, `Result`, and `Collect`, which gathers a list of results and stops at the first error.
- `schedule_generator.dfy` (module `ScheduleGenerator`): the backend enumerator.
  - The grouping loop is a method over a `map`. It is proved equal to the function `GroupedTimes`.
  - `check_conflict` is a method with two nested loops. It is proved equal to the pair search `SomePairClashes` and to the recursive `HasConflict`.
  - `generate_valid_schedules` is a recursive method with a loop. The result list it shares in Python is passed in and handed back. It is proved equal to the function `Enumerate`.
  - `Enumerate` is then proved equal to an independent reference description, `KeepValid` over `Picks`: every way of taking one section per course, courses in first-appearance order.
- `js_text.dfy` (module `JsText`): the JavaScript primitives the page uses:
  - `split` with a one-character separator;
  - `Number` on decimal digit strings;
  - `toString` on non-negative integers;
  - `padStart`.

  Each is specified by a round trip.
- `home.dfy` (module `Home`): `convertTo24Hour`, the break filter and map, the course identifiers, the request body, and the step counter. The step counter is the `Wizard` class: the React state is its fields, and each button click is a method.

Errors are modelled as values:

- A section without an entry in `section_time_dict` raises Python's `KeyError` (schedule_generator.py:123). It is modelled as `Err(KeyError(crn))`.
- When the text before the first space contains no `:`, the minutes are `undefined`, and calling `toString` on them throws a `TypeError` (page.tsx:56, 64-66). It is modelled as `Err(TypeError)`. For example, `"2 PM:30"` contains a `:` but still throws.

`page.tsx` validates no weights and checks no timeout marker. It stores any array it receives and replaces anything else with `[]` (page.tsx:102).

## Model

| member | source | states |
|---|---|---|
| ScheduleGenerator.GroupByCrn | backend.0/scheduler/schedule_generator.py:36-44 | The loop's dictionary has as keys exactly the CRNs that occur in the input, and no list is empty. Each list equals `GroupedTimes`: the CRN's meetings in input order. |
| ScheduleGenerator.GroupingTableStep | backend.0/scheduler/schedule_generator.py:41-44 | One pass either creates the list for a new CRN or extends an existing one. Afterwards every list still holds exactly the meetings of its CRN seen so far. |
| ScheduleGenerator.GroupedTimesFacts | backend.0/scheduler/schedule_generator.py:36-44 | The grouping keeps every meeting time: `t` is in the list of `crn` iff `t` is an input time with that CRN. The keys are the CRNs present, and no list is empty. |
| ScheduleGenerator.TimesWithCrnMembers | backend.0/scheduler/schedule_generator.py:41-44 | A meeting is in the CRN's list iff it is an input time with that CRN. |
| ScheduleGenerator.TimesWithCrnEmpty | backend.0/scheduler/schedule_generator.py:41-42 | A CRN's list is empty iff the CRN does not occur, so only occurring CRNs become keys. |
| ScheduleGenerator.CheckConflict | backend.0/scheduler/schedule_generator.py:60-70 | Returns true iff some pair i < j shares a day letter and has `end_i > begin_j` and `begin_i < end_j`. The result also equals the recursive `HasConflict`. |
| ScheduleGenerator.ConflictIsClashingPair | backend.0/scheduler/schedule_generator.py:60-70 | The recursive conflict test holds exactly when the pair search of check_conflict finds a clashing pair. |
| ScheduleGenerator.ClashesWithAnyMeaning | backend.0/scheduler/schedule_generator.py:61-69 | The inner loop finds a clash for meeting i iff some later meeting clashes with it. |
| ScheduleGenerator.Clash | backend.0/scheduler/schedule_generator.py:66-67 | A clash needs a day letter in both meetings and overlapping times: both day strings are non-empty, and each meeting begins before the other ends. |
| ScheduleGenerator.ClashMeaning | backend.0/scheduler/schedule_generator.py:66-67 | Two meetings clash iff some day character occurs in both day strings and their intervals overlap strictly. |
| ScheduleGenerator.ClashSymmetric | backend.0/scheduler/schedule_generator.py:66-67 | The clash test gives the same answer with its arguments swapped. |
| ScheduleGenerator.ApartMeetingsDoNotClash | backend.0/scheduler/schedule_generator.py:66-67 | Meetings on disjoint days never clash. Neither do meetings where one ends when or before the other begins. |
| ScheduleGenerator.ShortListHasNoConflict | backend.0/scheduler/schedule_generator.py:60-70 | An empty or one-element list is never in conflict. |
| ScheduleGenerator.ConflictFromPair | backend.0/scheduler/schedule_generator.py:60-69 | A clash between any two distinct positions, in either order, is found by the i < j search. |
| ScheduleGenerator.ConflictSwapInvariant | backend.0/scheduler/schedule_generator.py:60-67 | Exchanging two meetings of the list does not change the verdict. |
| ScheduleGenerator.ConflictReverseInvariant | backend.0/scheduler/schedule_generator.py:60-67 | Reversing the list does not change the verdict. |
| ScheduleGenerator.ClashOfReversed | backend.0/scheduler/schedule_generator.py:60-67 | A clashing pair of the reversed list gives a clashing pair of the original. |
| ScheduleGenerator.ClashToReversed | backend.0/scheduler/schedule_generator.py:60-67 | A clashing pair of the original list gives a clashing pair of the reversed one. |
| ScheduleGenerator.IsValidCombination | backend.0/scheduler/schedule_generator.py:86-89 | Returns exactly the negation of the conflict test. |
| ScheduleGenerator.Remaining | backend.0/scheduler/schedule_generator.py:111-117 | When `remaining_courses` is non-empty, its head is a course of the sections that is not yet selected. |
| ScheduleGenerator.PickShrinksRemaining | backend.0/scheduler/schedule_generator.py:134 | Adding the next course to the selected set strictly shrinks the set of unselected courses, so the recursion ends. |
| ScheduleGenerator.Enumerate | backend.0/scheduler/schedule_generator.py:103-135 | Every schedule a call appends is conflict-free. The only error is a KeyError, for the CRN of a section that has no time-table entry. |
| ScheduleGenerator.EnumerateFrom | backend.0/scheduler/schedule_generator.py:120-135 | Every schedule the section loop appends from position i on is conflict-free. The only error is a KeyError, for the CRN of an untimed section. |
| ScheduleGenerator.EnumerateFromStep | backend.0/scheduler/schedule_generator.py:120-135 | In one loop pass, the recursive call's schedules reach the shared list before those of the later passes. |
| ScheduleGenerator.GenerateValidSchedules | backend.0/scheduler/schedule_generator.py:91-135 | The shared result list after the call is the list before it, followed by exactly the schedules of `Enumerate`, in order; or the call raises `Enumerate`'s KeyError. |
| ScheduleGenerator.CourseOrderFacts | backend.0/scheduler/schedule_generator.py:104-111 | The first-appearance order lists every course of the sections exactly once. |
| ScheduleGenerator.DistinctCard | backend.0/scheduler/schedule_generator.py:104 | A list without repeats has as many distinct elements as entries, which is how `len(set(...))` counts the courses. |
| ScheduleGenerator.RemainingAppend | backend.0/scheduler/schedule_generator.py:111 | `remaining_courses` of a concatenation is the concatenation of the two parts' `remaining_courses`. |
| ScheduleGenerator.RemainingAllSelected | backend.0/scheduler/schedule_generator.py:111-114 | With every course selected, `remaining_courses` is empty. |
| ScheduleGenerator.RemainingHead | backend.0/scheduler/schedule_generator.py:111-117 | Once the first k courses of the first-appearance order are selected, the next course is the order's (k+1)-th. |
| ScheduleGenerator.SelectedCount | backend.0/scheduler/schedule_generator.py:104 | The first k courses of the order are k distinct courses. The base case fires exactly when all courses of the order are selected. |
| ScheduleGenerator.SelectNext | backend.0/scheduler/schedule_generator.py:134 | Selecting the order's next course gives the first k+1 courses of the order. |
| ScheduleGenerator.EntersLoop | backend.0/scheduler/schedule_generator.py:104-120 | Below the last course, a call runs the section loop for the order's next course. |
| ScheduleGenerator.SectionsOfMembers | backend.0/scheduler/schedule_generator.py:120-121 | A section is among those of a course iff it is a section with that course. |
| ScheduleGenerator.PrependMember | backend.0/scheduler/schedule_generator.py:126-135 | A combination extended by one section is that section followed by one of the later combinations. |
| ScheduleGenerator.ProductMember | backend.0/scheduler/schedule_generator.py:120-135 | Combinations over a list of choices are exactly a choice followed by a later combination. |
| ScheduleGenerator.PicksExactly | backend.0/scheduler/schedule_generator.py:111-135 | The reference list contains exactly the combinations that take, for each course in turn, one section of that course. |
| ScheduleGenerator.KeepValidAppend | backend.0/scheduler/schedule_generator.py:104-107 | Filtering conflict-free schedules from a concatenation filters each part in turn. |
| ScheduleGenerator.KeepValidPrepend | backend.0/scheduler/schedule_generator.py:123-126 | Extending by one section's full meeting list first is the same as starting from the extended combination. |
| ScheduleGenerator.ProductOfFirstSection | backend.0/scheduler/schedule_generator.py:120-135 | The combinations of a section of the next course come before those of the later sections. |
| ScheduleGenerator.ReferenceTakes | backend.0/scheduler/schedule_generator.py:120-135 | On the reference side, one section of the next course contributes its conflict-free extensions before those of the later sections. |
| ScheduleGenerator.EnumerateFromTakes | backend.0/scheduler/schedule_generator.py:120-135 | A timed section of the next course contributes its recursive call's schedules before those of the later sections. |
| ScheduleGenerator.EnumerateMatchesReference | backend.0/scheduler/schedule_generator.py:103-135 | With every section timed, a call with the first k courses selected appends exactly the conflict-free reference combinations for the remaining courses, in order. |
| ScheduleGenerator.EnumerateFromMatchesReference | backend.0/scheduler/schedule_generator.py:120-135 | With every section timed, the loop from position i appends the reference combinations whose next-course section lies at or after i. |
| ScheduleGenerator.MissingTimesFail | backend.0/scheduler/schedule_generator.py:123 | If a section of a not-yet-selected course has no time-table entry, the call raises a KeyError. |
| ScheduleGenerator.MissingTimesFailFrom | backend.0/scheduler/schedule_generator.py:120-135 | The loop raises a KeyError when an untimed section of the next course lies ahead, or when any later course has an untimed section. |
| ScheduleGenerator.GeneratorMatchesReference | backend.0/scheduler/schedule_generator.py:91-135 | From an empty start, the generator succeeds iff every section is timed. It then yields the conflict-free schedules that take one section per course, courses in first-appearance order, with all of each section's meeting times. |
| ScheduleGenerator.GetValidSchedules | backend.0/scheduler/schedule_generator.py:138-163 | Grouping the times and then generating succeeds iff every section's CRN has meeting times. The result is the reference enumeration, and every schedule in it is conflict-free. No sections give exactly one empty schedule. |
| Results.Collect | frontend/src/app/page.tsx:72-77 | A list of outcomes gives all values, in order, iff each succeeded; otherwise it gives the first error. |
| JsText.Split | frontend/src/app/page.tsx:55-56 | `split` always gives at least one piece. |
| JsText.SplitPieces | frontend/src/app/page.tsx:55-56 | `split` gives more than one piece iff the separator occurs, and no piece contains it. |
| JsText.JoinSplit | frontend/src/app/page.tsx:55-56 | Joining the pieces of `split` with the separator gives back the string. |
| JsText.SplitJoin | frontend/src/app/page.tsx:55-56 | Splitting a join of separator-free pieces gives back the pieces. |
| JsText.SplitWithoutSeparator | frontend/src/app/page.tsx:55-56 | A string without the separator is a single piece. |
| JsText.SplitAfterPiece | frontend/src/app/page.tsx:55-56 | A separator-free piece followed by the separator comes off the front of `split` unchanged. |
| JsText.JoinExtendsHead | frontend/src/app/page.tsx:55-56 | Extending the first piece by one character extends the joined string by it. |
| JsText.NatToString | frontend/src/app/page.tsx:64-66 | `toString` of a non-negative integer is a non-empty digit string, one digit long exactly below 10 and two digits for 10 to 99. |
| JsText.ParsePrinted | frontend/src/app/page.tsx:54-67 | Reading back the printed numeral gives the number. |
| JsText.PrintParsed | frontend/src/app/page.tsx:54-67 | Printing the value of a numeral without leading zeros gives the numeral. |
| JsText.LeadingDigitPositive | frontend/src/app/page.tsx:56 | A numeral that does not start with 0 has a positive value. |
| JsText.LeadingZero | frontend/src/app/page.tsx:56 | A leading zero does not change the value `Number` reads. |
| JsText.ToNumber | frontend/src/app/page.tsx:56-56 | `Number` gives NaN exactly for non-digit strings. Reading a numeral without leading zeros and printing the value gives back the numeral. |
| JsText.NumberToString | frontend/src/app/page.tsx:64-66 | `toString` prints `"NaN"` exactly for NaN. A number prints as a numeral without leading zeros that reads back as the number. |
| JsText.PrintedCanonical | frontend/src/app/page.tsx:64-66 | A printed number never starts with a leading zero. |
| JsText.NumberRoundTrip | frontend/src/app/page.tsx:54-67 | `Number(x.toString())` is `x`, NaN included. |
| JsText.PadStart | frontend/src/app/page.tsx:64-66 | `padStart` gives the requested width, or the string's own width if longer. |
| JsText.PadStartShape | frontend/src/app/page.tsx:64-66 | `padStart` gives the requested width, or the string's own if longer. The result ends with the string and is fill characters before it. |
| JsText.ZeroPaddingKeepsValue | frontend/src/app/page.tsx:64-66 | Zero padding keeps a numeral a numeral of the same value. |
| Home.DayHour | frontend/src/app/page.tsx:58-62 | The correction keeps the hour modulo 12. A PM hour comes out at 12 or later, an AM hour up to 12 comes out below 12, and any other suffix leaves the hour alone. |
| Home.Adjust | frontend/src/app/page.tsx:58-62 | NaN stays NaN and a number stays a number. A missing suffix changes nothing, and a number keeps its value modulo 12. |
| Home.ConvertTo24Hour | frontend/src/app/page.tsx:54-67 | The conversion throws iff the text before the first space contains no `:`. |
| Home.ConvertPieces | frontend/src/app/page.tsx:54-67 | A text whose pieces are digit-string hours and minutes plus a period converts to the corrected hour and the minute, each padded to two digits, then `:00`. |
| Home.ClockTextPieces | frontend/src/app/page.tsx:55-56 | `"H:M P"` splits at the space into the time part and the period, and the time part splits at `:` into hours and minutes. |
| Home.ConvertClockText | frontend/src/app/page.tsx:54-67 | `"H:M P"`, with any digit strings read as exact integers, converts to the hour corrected for AM/PM, then the minute, then `:00`. PM below 12 adds 12, 12 AM becomes 0, and any other hour or suffix stays. |
| Home.DayHourRange | frontend/src/app/page.tsx:58-62 | For a valid reading (hour 1 to 12, AM or PM), the corrected hour lies in 0 to 23. It is below 12 exactly for AM. |
| Home.TwelveHourOf | frontend/src/app/page.tsx:58-62 | Every hour of the day is the corrected hour of some valid reading. |
| Home.TwelveHourOfDayHour | frontend/src/app/page.tsx:58-62 | The correction is one-to-one on valid readings: reading the corrected hour back gives the original. |
| Home.PaddedNumeral | frontend/src/app/page.tsx:64-66 | A number below 100, printed and padded, is two digits that read back as the number. |
| Home.ClockLayout | frontend/src/app/page.tsx:64-66 | Two two-character fields give the eight-character `HH:MM:00` layout. |
| Home.ClockFields | frontend/src/app/page.tsx:64-66 | The output is eight characters, `HH:MM:00`, and hour and minute read back from their fields. |
| Home.ConvertValidReading | frontend/src/app/page.tsx:54-67 | A valid 12-hour reading converts to its hour of the day, which is below 24, and its minute. |
| Home.ConvertInjective | frontend/src/app/page.tsx:54-67 | Distinct valid readings give distinct outputs. |
| Home.ConvertOnto | frontend/src/app/page.tsx:54-67 | Every hour and minute of the day is the conversion of some valid reading. |
| Home.Filled | frontend/src/app/page.tsx:73-73 | A break passes iff both its start and end strings are non-empty, which is when both are truthy. |
| Home.FilledBreaks | frontend/src/app/page.tsx:72-73 | The filter keeps exactly the breaks with both strings non-empty, and never lengthens the list. |
| Home.FilledBreaksAppend | frontend/src/app/page.tsx:72-73 | Filtering distributes over concatenation, so the kept breaks stay in input order. |
| Home.FilledBreaksIdempotent | frontend/src/app/page.tsx:72-73 | Filtering twice is filtering once. |
| Home.AllFilledKept | frontend/src/app/page.tsx:72-73 | A list of filled-in breaks passes the filter unchanged. |
| Home.FormatBreak | frontend/src/app/page.tsx:74-77 | A break converts iff both its start and end text have a `:` before the first space. The result's begin and end are then the two conversions. |
| Home.FormattedBreaks | frontend/src/app/page.tsx:72-77 | The list is built iff every filled-in break converts. It then has one entry per kept break, in order, each the converted start and end. |
| Home.BreaksOf | frontend/src/app/page.tsx:72-77 | Writing readings as break rows gives one row per reading pair, each time as `HH:MM AM`. |
| Home.ValidBreaksConvert | frontend/src/app/page.tsx:72-77 | Breaks entered as valid 12-hour readings all convert, one `HH:MM:00` pair per break, in order. |
| Home.CourseId | frontend/src/app/page.tsx:81-81 | The identifier is the subject, one `-`, then the course number, at these exact positions and length. |
| Home.CourseIds | frontend/src/app/page.tsx:80-82 | One identifier per course, same length and order; entry i is `subject-courseNumber` of course i. |
| Home.CourseIdRoundTrip | frontend/src/app/page.tsx:80-82 | When the subject contains no `-`, splitting the identifier at its first `-` gives back subject and number. |
| Home.CourseIdsRecoverCourses | frontend/src/app/page.tsx:80-82 | When no subject contains `-`, every course is recovered from its identifier, so distinct course lists give distinct identifier lists. |
| Home.BuildPayload | frontend/src/app/page.tsx:72-88 | The request body is built iff every filled-in break converts. Its courses are then `CourseIds(courses)`, one per course, and its breaks are the formatted filled-in breaks, no more than entered. The days, time of day and both weights are the preferences' fields, unchanged. |
| Home.StoredSchedules | frontend/src/app/page.tsx:102-102 | An array response is stored as is. The stored list is empty iff the response is not an array or is an empty array. |
| Home.Wizard.constructor | frontend/src/app/page.tsx:30-43 | The page starts at step 1, with one blank course, one blank break, no days, no time of day, weights 0.5 and no schedules. |
| Home.Wizard.HandleNext | frontend/src/app/page.tsx:46-48 | handleNext increments the step and changes nothing else. |
| Home.Wizard.HandlePrevious | frontend/src/app/page.tsx:50-52 | handlePrevious decrements the step and changes nothing else. |
| Home.Wizard.SetCourses | frontend/src/app/page.tsx:31-31 | The course input replaces the course list only. |
| Home.Wizard.SetBreaks | frontend/src/app/page.tsx:34-34 | The breaks input replaces the break list only. |
| Home.Wizard.SetPreferences | frontend/src/app/page.tsx:37-42 | The preferences input replaces the preferences only. |
| Home.Wizard.ClickPrevious | frontend/src/app/page.tsx:155-164 | "Previous" is on screen only at steps 2 and 3. It goes back one step, keeps the step between 1 and 4, and changes nothing else. |
| Home.Wizard.ClickPrimary | frontend/src/app/page.tsx:97-170 | At steps 1 and 2 the main button moves on one step. At step 3 it sends the body built from the current entries; a body that throws is not sent. The page reaches step 4 iff the body was sent and a response arrived, and then stores the response if it is an array and `[]` otherwise. |
| Home.WalkThrough | frontend/src/app/page.tsx:46-170 | From a fresh page, two clicks of the main button and a generation reach step 4 iff the body can be built. The schedules stored are the response array, or `[]`. |

## Left out

- The Django setup and ORM queries (schedule_generator.py:1-8, 25-28) are database I/O. The grouping and `GetValidSchedules` take the query results as input lists.
- `section_dict` (schedule_generator.py:32) is given as the sequence of its values, in insertion order. The model does not rely on CRNs being distinct, which the dictionary would guarantee.
- Python's mutable default arguments (schedule_generator.py:91) are replaced by explicit parameters. The result list is passed in and handed back; the combination and the selected set are fresh values in the source too.
- The module-level test run and the `print` calls (schedule_generator.py:159, 166-168) are side effects only.
- `models.py` is not part of this model apart from the shapes of `Section` and `SectionTime`. Meeting begin and end times are minutes since midnight.
- JsText.ToNumber: reads only decimal digit strings, with `""` as 0. Every other string is NaN here. JavaScript's `Number` also accepts signs, decimal points, exponents, `0x`/`0b`/`0o` prefixes, `"Infinity"` and surrounding white space. Clock strings only reach those cases when malformed.
- JsText.ToNumber, JsText.NumberToString, JsText.NatToString: JavaScript numbers are IEEE doubles, but the model reads and prints integers exactly. It therefore matches JavaScript only below 2^53, where doubles are exact. From 10^21 on, `toString` also switches to exponent form (`"1e+21"`). For example, `Number("12345678901234567")` is 12345678901234568 in JavaScript.
- Home.ConvertPieces, Home.ConvertClockText: these state the output with exact integers. An hour or minute field of more than 15 digits can exceed 2^53. The page then prints the rounded double instead.
- The `fetch` call, the promise chain, `console.log` and the `isLoading` flag (page.tsx:69-70, 90-109) are network I/O and asynchronous UI. `ClickPrimary` receives the request's outcome as a parameter, `None` for a failed request. It completes at once, so overlapping clicks during a pending request are not modelled.
- Day and time weights are floating-point values that are only forwarded. They are `real` values passed through unchanged.
- The JSX rendering and CSS transitions (page.tsx:112-195) are UI. Only the conditions for showing the two buttons are modelled: `ShowsNavigation` and `ShowsPrevious`, which become the preconditions of the click methods.
- The child input components are not part of this model. Their edits reach the page only through the three setters.
