# Roll-call state engine

A Dafny model of the roll-call page of a course-attendance app
(`StudentPickComponent`). One session covers one class or course, one date
and one teaching period. The page:

- resolves the period's configuration and coerces its allowed absence
  categories into a sequence;
- builds one *check* per fetched student. A check's status is the first entry
  of the student's attendance history tagged with the period's name;
- lets the operator put the selected absence category on a check, unless no
  category is selected or the check refuses the change;
- keeps a summary line `code: count, …`. It counts the checks that accept
  changes and have a status, with codes in first-seen order;
- saves one item per check, in order, and then rebuilds every check from a
  fresh fetch instead of patching them.

Modules:

- `Js` (`js.dfy`): the JavaScript behaviour the page relies on. This covers
  loosely typed fields (missing, single value, array), `[].concat(x)`, the `||`
  fallback on an array, an insertion-ordered `Map` (`CountMap`), `join` and
  number formatting.
- `Attendance` (`attendance.dfy`): the records, period resolution and
  `GetSelectedAttendance`.
- `StudentChecks` (`student_check.dfy`): the `StudentCheck` class. Its source
  (`student-check.ts`) is not part of this model. Its three operations
  (`acceptChange`, `setAttendance`, `getCheckData`) are given as function
  values over the check's state (`CheckRules`). The server-side item type is
  the type parameter `D`.
- `Summary` (`summary.dfy`): the counting map as a function of the counted
  codes, and its properties.
- `RollCall` (`roll_call.dfy`): the page as a class, `StudentPickComponent`.
  Its fields are updated in place, and each method states the new state.

Inputs that stand for I/O:

- the fetched student list is a method argument;
- whether the backend accepted a save is a `bool` argument;
- the period configuration from the configuration service is a `RawPeriodConf`
  argument.

Where the code departs from the intended behaviour, or leaves a case open:

- **Missing allowed-absence field.** A period with no allowed categories is
  meant to allow none: an empty sequence. The code gives a one-element array
  holding `undefined`; see Findings.
- **`acceptChange`.** A check is meant to be editable while it has no status,
  or while its status is one of the period's allowed categories. That rule
  lives in `student-check.ts`, which is not part of this model, so the model
  keeps it abstract.
- **`Attendance` without `Period` children.** Nothing says what should happen
  in this case. The code then searches `[undefined]` and throws a `TypeError` while
  reading `@text`. The reload stops at that student with the checks built so
  far, and the summary is not recomputed. The model does the same
  (`GetSelectedAttendance` returns `Err`, `ReloadStudentAttendances` returns
  `false`).

## Model

| member | source | states |
|---|---|---|
| `Js.Concat` | test_course_attend/src/app/pages/student-pick.component.ts:153 | `[].concat` of a present field is exactly that field's elements, in order and all defined. A missing field gives one `undefined` element. |
| `Js.ConcatOrEmpty` | test_course_attend/src/app/pages/student-pick.component.ts:57 | The logical-or fallback to `[]` never fires: the result is always that of `[].concat`. |
| `Js.SetPlacement` | test_course_attend/src/app/pages/student-pick.component.ts:110-113 | `Map.set` on a well-formed map: listed keys keep their positions, a new key is listed last, the key takes the new value and other keys keep theirs. |
| `Js.CountMap.Entries` | test_course_attend/src/app/pages/student-pick.component.ts:117 | `Array.from(map)` gives one `[key, value]` pair per key, in insertion order. |
| `Js.JoinSnoc` | test_course_attend/src/app/pages/student-pick.component.ts:121 | `join` read left to right: each further part follows one more separator. |
| `Js.JoinEmpty` | test_course_attend/src/app/pages/student-pick.component.ts:121 | Joining non-empty parts gives the empty string exactly when there are no parts. |
| `Js.NumberTextValue` | test_course_attend/src/app/pages/student-pick.component.ts:118 | The text a template literal gives a count reads back as that count in decimal, with no leading zero unless the count is 0. |
| `Js.MissingFieldGivesUndefinedElement` | test_course_attend/src/app/pages/student-pick.component.ts:57 | A missing field coerces to `[undefined]`, not to an empty array. |
| `Js.NormalizeIsStrippedConcat` | test_course_attend/src/app/pages/student-pick.component.ts:57 | The intended normalisation equals the coerced array with its `undefined` elements dropped. The two agree (nothing dropped) exactly when the field is present. |
| `Attendance.ResolvePeriodAsWritten` | test_course_attend/src/app/pages/student-pick.component.ts:57 | The code's coercion gives at least one element unless the field is an empty array. A missing field yields an `undefined` category. |
| `Attendance.MissingAbsenceAsWritten` | test_course_attend/src/app/pages/student-pick.component.ts:57 | For a configuration without the field, the code gives `[undefined]` where the corrected resolution gives `[]`. |
| `Attendance.ResolvePeriod` | test_course_attend/src/app/pages/student-pick.component.ts:56-57 | Keeps the period name. The categories are the code's coerced array minus `undefined`, and a missing field gives none. |
| `Attendance.FindByPeriod` | test_course_attend/src/app/pages/student-pick.component.ts:154 | A found entry is tagged with the period and no earlier element is. Not found holds exactly when every element is defined and differently tagged. A throw happens only on an `undefined` element reached before any match. |
| `Attendance.GetSelectedAttendance` | test_course_attend/src/app/pages/student-pick.component.ts:150-155 | No `Attendance` gives no status. It throws exactly when `Attendance` has no `Period`. A returned entry is the first in the normalised history tagged with the period. No status means no history entry has that tag. |
| `Attendance.SavedStatusReadBack` | test_course_attend/src/app/pages/student-pick.component.ts:150-155 | Put a new entry for the period at the head of a history, and the derived status is that entry (the save/reload round trip). |
| `Summary.BumpStep` | test_course_attend/src/app/pages/student-pick.component.ts:108-112 | One round of the counting loop appends an unseen code with count 1. A seen code keeps its place and its count goes up by 1. |
| `Summary.TallyValid` | test_course_attend/src/app/pages/student-pick.component.ts:103-114 | The counting map lists each code once. Its keys are exactly the counted codes. |
| `Summary.TallyCounts` | test_course_attend/src/app/pages/student-pick.component.ts:104-114 | Each code's stored count is the number of times it occurs, and is at least 1. A code that does not occur has no entry. |
| `Summary.TallySum` | test_course_attend/src/app/pages/student-pick.component.ts:104-114 | The stored counts add up to the number of counted codes. |
| `Summary.TallyOrder` | test_course_attend/src/app/pages/student-pick.component.ts:109-119 | Keys are listed in the order of first occurrence. |
| `Summary.SummaryEmpty` | test_course_attend/src/app/pages/student-pick.component.ts:116-121 | The summary line is empty exactly when no code is counted. |
| `Summary.TallyExample` | test_course_attend/src/app/pages/student-pick.component.ts:104-114 | SICK, SICK, LEAVE count as SICK 2 then LEAVE 1. |
| `Summary.SummaryExample` | test_course_attend/src/app/pages/student-pick.component.ts:102-122 | SICK, SICK, LEAVE render as `SICK: 2, LEAVE: 1`. |
| `RollCall.SummaryCounts` | test_course_attend/src/app/pages/student-pick.component.ts:104-114 | A code has a summary entry exactly when some check counts towards it: accepts changes, has a status, has that category. The entry is the number of such checks, at least 1. |
| `RollCall.SummaryTotal` | test_course_attend/src/app/pages/student-pick.component.ts:104-114 | The summary counts add up to the number of counted checks, which is at most the number of checks. |
| `RollCall.SummaryTextEmpty` | test_course_attend/src/app/pages/student-pick.component.ts:104-121 | The summary line is empty exactly when no check is counted. |
| `RollCall.CountedCodesOccurs` | test_course_attend/src/app/pages/student-pick.component.ts:104-113 | Locked and status-less checks never contribute. A code occurs among the counted codes as many times as there are checks counting towards it. |
| `RollCall.GetAttendanceText` | test_course_attend/src/app/pages/student-pick.component.ts:124-126 | The label is the status's absence category, or `Check` when there is no status. |
| `RollCall.CountedLabelInSummary` | test_course_attend/src/app/pages/student-pick.component.ts:109-126 | The label of every counted check is a code with an entry in the summary. |
| `RollCall.StudentPickComponent.CountSummary` | test_course_attend/src/app/pages/student-pick.component.ts:103-114 | The counting loop's map is the tally of the counted checks' codes, in check order. |
| `RollCall.RenderEntries` | test_course_attend/src/app/pages/student-pick.component.ts:115-118 | The rendering loop gives one `code: count` text per map entry, in the map's order. |
| `RollCall.StudentPickComponent.CalcSummaryText` | test_course_attend/src/app/pages/student-pick.component.ts:102-122 | The summary field becomes the joined `code: count` entries of that tally. Nothing else changes. |
| `RollCall.StudentPickComponent.ReloadStudentAttendances` | test_course_attend/src/app/pages/student-pick.component.ts:69-79 | The list is rebuilt with one new, distinct check per student, in input order. Each check holds `GetSelectedAttendance` of its student. The summary is recomputed. On a throw, the list stops before the failing student and the summary is kept. |
| `RollCall.StudentPickComponent.SelectPeriod` | test_course_attend/src/app/pages/student-pick.component.ts:56-64 | The period configuration is the corrected resolution, `Attendance.ResolvePeriod`: a configuration without `Absence` stores `[]`, where line 57 as written stores `[undefined]` (see Findings). The checks are rebuilt for that period. |
| `RollCall.StudentPickComponent.ChangeAttendance` | test_course_attend/src/app/pages/student-pick.component.ts:81-99 | With no category selected, or when the target refuses the change, nothing changes. Otherwise only the target's status changes, through `setAttendance`, and the summary is recomputed. No other check changes. |
| `RollCall.StudentPickComponent.BatchItems` | test_course_attend/src/app/pages/student-pick.component.ts:159-163 | One item per check, in order; item i is check i's data. Nothing is filtered by `acceptChange`. |
| `RollCall.StudentPickComponent.SaveRollCall` | test_course_attend/src/app/pages/student-pick.component.ts:157-176 | The submitted batch is the pre-save checks' data. A rejected save changes nothing. An accepted save rebuilds the checks from the fresh student list. If that reload throws, the summary keeps its old value. |
| `StudentChecks.StudentCheck.SetAttendance` | test_course_attend/src/app/pages/student-pick.component.ts:93 | The check's status becomes what `setAttendance` gives for the selected code. |

## Left out

- Angular wiring is not modelled: route and query-parameter subscriptions, `config.ready`, `ChangeDetectorRef` and the display name. They are framework plumbing and asynchronous event delivery.
- The group kind and id (`groupInfo`) and `today` are not modelled. They are only passed on to the network calls.
- Network calls are not modelled. `dsa.getStudents` is the `students` argument, so a failing fetch is not modelled. `dsa.setRollCall` is the `accepted` argument. The backend's idempotence per student and period is not part of the model.
- Messages to the operator are not modelled: the snack messages, `alert.json` and the waiting dialog. The outcome values `ChangeOutcome` and `SaveOutcome` stand for which message is shown.
- The optional `msg` argument of `reloadStudentAttendances` only shows a message, so it is left out.
- `getAttendanceStyle` is left out. It is a colour lookup in the configuration service and is presentation only.
- `StudentChecks.StudentCheck.SetAttendance`: the body of `setAttendance` is not part of this model. The model assumes it changes only the check's status, to a value fixed by the check's state and the code.
- The bodies of `acceptChange` and `getCheckData` are not part of this model. They are functions of the check's student, status and period configuration.
- Aliasing is lost. Line 57 writes the coerced array back into the configuration service's own period object. The model keeps the page's configuration as a value.
- JavaScript truthiness is simplified. An unselected category (`undefined`, `null` or `''`) is the empty string. A falsy `Attendance` is `None`. History arrays are taken to hold entries only (no `undefined` elements).
- The state before the first load is not the source's. The constructor starts with no checks, an empty summary and a period configuration with an empty name and no categories. In the source, `studentChecks`, `checkSummary` and `periodConf` are undefined until the first load, so a save before it throws at line 161, where the model submits an empty batch. That state is reachable only through a failed fetch or concurrent events, and neither is modelled.
- Concurrency is not modelled: the asynchronous interleaving of fetch, save and edits.
- `testCamera/app/src/main/java/com/example/dylan/camera/myapplicationtestcamera/MainActivity.java` holds only empty Android callbacks, with no logic to model.

## Findings

| source | as written | input that shows it | evidently intended | confidence | as-written member | corrected member |
|---|---|---|---|---|---|---|
| test_course_attend/src/app/pages/student-pick.component.ts:57 | A missing allowed-absence field coerces to an array holding one `undefined` category. The logical-or fallback to `[]` can never be taken, because an array is always truthy. | A period configuration without an `Absence` field | The period allows no categories: an empty sequence | not executed; high that the fallback is dead, medium that an empty list was meant | `Attendance.ResolvePeriodAsWritten` (shown by `Attendance.MissingAbsenceAsWritten`) | `Attendance.ResolvePeriod` |
