# Card-reader attendance: teacher controller and student display

A Dafny model of the two pages of a classroom attendance app. The pages share one tab-scoped session store.

- **Teacher page** (`src/app/admin/page.tsx`): the teacher sets a class title, a length in minutes and a head count. Starting the session stores an absolute end time and a running flag. A countdown is recomputed every second from the stored end time. The session ends by hand, or when the countdown reaches 0. Ending snapshots the ids on the stored roster and removes the five session keys. The teacher can then download the roster as CSV text under a dated, sanitised file name.
- **Student page** (`src/app/page.tsx`): it shows the class title and the seconds left. It receives card-reader messages. It keeps a deduplicated roster, newest first, persisted in the store. It shows present / 50 statistics.

Modules:

- `Js`: the JavaScript number semantics the pages rely on. `Num` is an integer or NaN. It covers `parseInt(_, 10)`, `Number(_)` on integer text, number-to-text, `padStart(2, '0')`, and `Math.round` of a percentage.
- `Clock`: the countdown `max(0, floor((end - now) / 1000))`, and both pages' `m:ss` formatting, with JavaScript's truncating `%`.
- `Store`: the session store as `map<string, string>`, its key names, and JavaScript truthiness of a read.
- `Records`: student records and card-reader events. The roster's stored text is a length-prefixed encoding with a decoder that may fail; it stands for `JSON.stringify`/`JSON.parse`, and its round trip is proved.
- `Display`: the student page. `DisplayState` with `Mount`, `Handle` and `Refresh` as transitions. The class `AttendanceDisplay` has the page's state hooks as fields, and its methods are proved to make those transitions.
- `Table`: splitting text on a separator, and a four-column table written one line per row. It is used to show that the downloaded CSV reads back.
- `Teacher`: the teacher page. `TeacherState` has the transitions `MountSession` (its effects `ReadTotal`, `RestoreSession`, `StoreTotal`), `StartSession`, `TickSession`, `EndSession` and the input edits. It also has the CSV text, the file-name sanitiser and the file name. The class `TeacherPage` has the hooks as fields. Its methods are proved to make those transitions and keep the lifecycle invariant `PhaseInv`. `DownloadCsv` builds the text in a loop, as the page does.
- `Scenario`: whole runs across both pages over one shared store.

React's effect scheduling is modelled by its net result. A mount is the initial render followed by its effects in declaration order. Any re-render those effects cause runs the effects whose dependencies changed. After an update to `totalStudents`, the persist effect runs only when the value changed.

Behaviour of the pages worth noting, which the model keeps:

- Ending removes the head-count key too. It is put back only by the head-count effect of the next mount or edit.
- The student page's total is the constant 50, not the stored head count.
- A repeated check-in, or a successful "present" message without a student, still adds one to the displayed count.

## Model

| member | source | states |
|---|---|---|
| Clock.Countdown | src/app/admin/page.tsx:68-77 | seconds left are 0 exactly when less than a second remains; otherwise they are the whole seconds to the end time |
| Clock.CountdownNonIncreasing | src/app/page.tsx:132-143 | as the clock advances, the countdown never goes up |
| Clock.CountdownAfterEnd | src/app/admin/page.tsx:70-75 | at or after the end time, one evaluation reads 0, however many ticks were missed |
| Clock.CountdownFromStart | src/app/admin/page.tsx:96-100 | an end time `minutes` ahead counts down from exactly `minutes * 60`, the value the start shows |
| Clock.JsRem | src/app/admin/page.tsx:167 | JavaScript `%` by a positive divisor: the remainder has the dividend's sign, is smaller than the divisor, and differs from the dividend by a multiple of the divisor |
| Clock.FormatTimeReadsBack | src/app/page.tsx:28-30 | for non-negative seconds the text is unpadded minutes (no leading zero unless the minutes are 0), ':' and two zero-padded digits; reading both back gives the seconds, with the two-digit part below 60 |
| Clock.DisplayTimeShows | src/app/page.tsx:26-31 | the student page's `formatTime` shows nothing for NaN, and a non-negative countdown as `m:ss` with unpadded minutes that reads back as that countdown |
| Clock.TeacherTimeShows | src/app/admin/page.tsx:164-169 | the teacher page's `formatTime` shows nothing for no countdown, `NaN:NaN` for NaN, and a non-negative countdown as `m:ss` with unpadded minutes that reads back as that countdown |
| Js.NatToString | src/app/admin/page.tsx:89 | number-to-text is non-empty, all digits, and has no leading zero except for 0 |
| Js.NatToStringValue | src/app/admin/page.tsx:97 | the decimal text of a number reads back as that number |
| Js.ParseIntRoundTrip | src/app/admin/page.tsx:55 | `parseInt` of a stored integer's text gives the integer back, negative ones included |
| Js.ParseIntOfDigits | src/app/page.tsx:135 | `parseInt` of a digit string is its decimal value |
| Js.ToNumberRoundTrip | src/app/admin/page.tsx:29-32 | `Number` of a stored number's text gives it back, NaN included |
| Js.Pad2Digits | src/app/admin/page.tsx:151-152 | `padStart(2, '0')` of a number below 100 is two digits with that value |
| Js.RoundRate | src/app/admin/page.tsx:128 | `Math.round(p / t * 100)` is the nearest integer to 100p/t; it lies in 0..100 when 0 <= p <= t |
| Store.Get | src/app/admin/page.tsx:47-50 | a read finds a value exactly when the key is stored, and the value found is the stored one |
| Records.Ids | src/app/admin/page.tsx:110 | the id list is as long as the roster and lists each record's id in place |
| Records.RosterRoundTrip | src/app/page.tsx:119-121 | the roster text read back gives the same roster, in order |
| Records.DecodeEncodeFields | src/app/page.tsx:44-51 | a run of encoded fields decodes to those fields and leaves what follows |
| Records.DecodeEncodeText | src/app/page.tsx:44-51 | one encoded text field decodes to itself and leaves what follows |
| Records.GroupFlatten | src/app/page.tsx:9-15 | grouping the flattened fields of a roster by five gives back its records |
| Display.StatsOf | src/app/page.tsx:58-64 | the stats after a roster change: present is the roster length, total is 50, rate is `2 * present` |
| Display.Receive | src/app/page.tsx:84-95 | a message adds exactly one record, in front, carrying the message's timestamp, exactly when it is a successful "present" message with a student whose id is not yet on the roster; otherwise the roster is unchanged |
| Display.ReceiveKeepsDistinct | src/app/page.tsx:90-95 | one message keeps the roster's ids distinct |
| Display.ReceiveAllKeepsDistinct | src/app/page.tsx:90-95 | any run of messages, duplicates included, keeps the ids distinct |
| Display.ReceiveAllKeepsOld | src/app/page.tsx:94 | a run of messages only adds in front: the earlier roster stays as the suffix |
| Display.ReceiveAllIds | src/app/page.tsx:84-95 | after a run of messages, an id is on the roster exactly when it was there before or some message admitted it |
| Display.Handle | src/app/page.tsx:77-117 | handling a message keeps the class title, the countdown and a positive total |
| Display.Mount | src/app/page.tsx:44-64 | the mounted page shows a total of 50 |
| Display.MountConsistent | src/app/page.tsx:44-75 | after mount, the stored roster is the shown roster's text, and the stats are exactly `StatsOf` the shown roster |
| Display.MountRereadsRoster | src/app/page.tsx:44-51 | a roster persisted at mount is read back unchanged by the next mount |
| Display.HydrateWritten | src/app/page.tsx:44-51 | whatever roster was written to the store, hydration reads back exactly that roster |
| Display.HandleConsistent | src/app/page.tsx:77-121 | after any message, the stored roster is still the shown one, and the count is at least the roster length with rate `2 * count` |
| Display.HandleEffect | src/app/page.tsx:84-105 | the roster is `Receive`'s. On a change, stats are recomputed and the roster is persisted. Otherwise a successful "present" message still adds one to the count, so a repeat check-in counts again |
| Display.AttendanceDisplay.constructor | src/app/page.tsx:43-75 | the page after mounting over a store is `Mount`'s, and it is consistent |
| Display.AttendanceDisplay.IsRegistered | src/app/page.tsx:91 | the search finds an id exactly when some record on the roster has it |
| Display.AttendanceDisplay.OnMessage | src/app/page.tsx:77-121 | the page after a message is `Handle`'s, and it stays consistent |
| Display.AttendanceDisplay.UpdateRemaining | src/app/page.tsx:132-142 | the countdown is recomputed from the stored end time, or is 0 without one; nothing else changes |
| Teacher.MountKeepsPhaseInv | src/app/admin/page.tsx:46-63 | after mount, the lifecycle invariant holds: a running session has its end time, its flag and a countdown; an ended one has neither key |
| Teacher.RestoreKeepsPhaseInv | src/app/admin/page.tsx:46-63 | the restore effect, run before anything has started, keeps the lifecycle invariant |
| Teacher.StartKeepsPhaseInv | src/app/admin/page.tsx:92-102 | starting keeps the lifecycle invariant |
| Teacher.TickKeepsPhaseInv | src/app/admin/page.tsx:66-85 | a tick keeps the lifecycle invariant |
| Teacher.EndKeepsPhaseInv | src/app/admin/page.tsx:104-122 | ending keeps the lifecycle invariant from any state |
| Teacher.EditKeepsPhaseInv | src/app/admin/page.tsx:303-331 | the three inputs keep the lifecycle invariant |
| Teacher.WriteTotalKeepsPhaseInv | src/app/admin/page.tsx:88-90 | storing the head count does not touch the lifecycle keys |
| Teacher.EndSessionEffect | src/app/admin/page.tsx:104-122 | ending removes exactly the five session keys and keeps every other stored value, the roster included. Title, length and head count stay on the page. Ending twice is ending once |
| Teacher.RemoveSessionKeys | src/app/admin/page.tsx:117-121 | the five removals, in the page's order, remove exactly the session key set |
| Teacher.SnapshotOfWrittenRoster | src/app/admin/page.tsx:105-111 | the ids snapshot of a roster the student page wrote are its ids, newest first |
| Teacher.StartStores | src/app/admin/page.tsx:92-102 | a start with whole minutes stores an end time that reads back as now + minutes * 60000; the stored roster is untouched |
| Teacher.StartKeepsRoster | src/app/admin/page.tsx:92-102 | a start leaves the ids snapshot of the stored roster unchanged |
| Teacher.StartThenTick | src/app/admin/page.tsx:66-102 | after a start, each tick shows the countdown to the stored end. At the start instant it shows the start's `minutes * 60`. The session ends exactly when that countdown is 0 |
| Teacher.TickReads | src/app/admin/page.tsx:68-77 | a tick shows the countdown to the stored end time, and ends the session exactly when it is 0 |
| Teacher.TickRepeats | src/app/admin/page.tsx:66-85 | repeating a tick at the same instant changes nothing while the session runs |
| Teacher.TickAfterEnd | src/app/admin/page.tsx:70-77 | however many ticks were missed, the first tick with less than a second left before the end time, or after it, ends the session, snapshots the stored roster and removes the session keys |
| Teacher.MountAfterEnd | src/app/admin/page.tsx:46-63 | reloading with less than a second left, or after the end time, ends the session at once with the stored roster's ids and restores the title. The roster is kept. The head count is written back as the text of the loaded total, which is the stored count when one is set |
| Teacher.RestoreAfterEnd | src/app/admin/page.tsx:52-61 | the restore effect over a running session with less than a second left, or past its end time, ends it, after restoring title and length, with a countdown of 0 |
| Teacher.MountBeforeEnd | src/app/admin/page.tsx:52-58 | reloading with a second or more left resumes the session with the recomputed countdown; only the head count is rewritten |
| Teacher.MountWithoutSession | src/app/admin/page.tsx:52 | without both the end time and the running flag, mounting neither starts nor ends a session |
| Teacher.Rate | src/app/admin/page.tsx:127-128 | the rate is the rounded percentage of present over a positive head count, and 0 for a head count that is 0, negative or NaN |
| Teacher.MoreRowsSnoc | src/app/admin/page.tsx:136-138 | one more id adds exactly one `,,,id` line at the end |
| Teacher.CsvRows | src/app/admin/page.tsx:130-141 | the exported table has a header and one row per id; with no ids it has a single row |
| Teacher.IdRows | src/app/admin/page.tsx:137 | each further id gets a row that is blank except its last column |
| Teacher.CsvIsTable | src/app/admin/page.tsx:130-141 | the CSV text is the table of `CsvRows`, one comma-joined line per row |
| Teacher.CsvReadsBack | src/app/admin/page.tsx:130-141 | with no comma or line break in the title and ids, the text splits into lines and cells that are exactly the table's rows, with nothing after the last line break |
| Teacher.CsvRowsClean | src/app/admin/page.tsx:130-141 | with a clean title and clean ids every cell of the exported table is free of commas and line breaks |
| Teacher.Sanitize | src/app/admin/page.tsx:154 | the sanitised title is no longer than the title. It keeps exactly the title's characters in the allowed set, and only those |
| Teacher.SanitizeAppend | src/app/admin/page.tsx:154 | sanitising works piece by piece, keeping order |
| Teacher.SanitizeSafe | src/app/admin/page.tsx:154 | a title of allowed characters only is unchanged |
| Teacher.SanitizeIdempotent | src/app/admin/page.tsx:154 | sanitising twice is sanitising once |
| Teacher.FileNameLayout | src/app/admin/page.tsx:149-155 | for a four-digit year the name is eight digits spelling year, month and day, then `_`, the sanitised title and `_attendance.csv` |
| Teacher.FileNameParts | src/app/admin/page.tsx:155 | a name of a four-digit year and two-digit month and day has those at fixed positions, then `_`, the title and `_attendance.csv` |
| Teacher.TeacherPage.constructor | src/app/admin/page.tsx:11-90 | the page after mounting is `MountSession`'s, with the lifecycle invariant |
| Teacher.TeacherPage.LoadTotal | src/app/admin/page.tsx:28-33 | reads the stored head count when it is set |
| Teacher.TeacherPage.Restore | src/app/admin/page.tsx:46-63 | restores title and length, and resumes or ends a stored running session, as `RestoreSession` |
| Teacher.TeacherPage.SaveTotal | src/app/admin/page.tsx:88-90 | stores the head count, keeping the invariant |
| Teacher.TeacherPage.RecountFromStore | src/app/admin/page.tsx:54-61 | recomputes the countdown from the stored end time and ends when it is 0 |
| Teacher.TeacherPage.Start | src/app/admin/page.tsx:92-102 | only with a title and nothing started: writes the five keys and shows `timer * 60`, as `StartSession` |
| Teacher.TeacherPage.Tick | src/app/admin/page.tsx:66-85 | one interval run while the session runs, as `TickSession` |
| Teacher.TeacherPage.End | src/app/admin/page.tsx:104-122 | snapshots the ids and removes the five keys, as `EndSession` |
| Teacher.TeacherPage.EditTitle | src/app/admin/page.tsx:307 | sets the title before the start |
| Teacher.TeacherPage.EditTimer | src/app/admin/page.tsx:320 | sets the length to `Number` of the input |
| Teacher.TeacherPage.EditTotal | src/app/admin/page.tsx:330 | sets the head count, and stores it only when it changed |
| Teacher.TeacherPage.DownloadCsv | src/app/admin/page.tsx:124-158 | the text built line by line in the loop is `CsvText`, and the name is `FileName` |
| Table.TableReadsBack | src/app/admin/page.tsx:131-141 | a table of clean four-column rows splits back into its rows |
| Table.LineReadsBack | src/app/admin/page.tsx:134-137 | one line of four clean cells holds no line break and splits on commas into exactly those cells |
| Scenario.IntroToCs | src/app/page.tsx:84-105 | "Intro to CS", 30 min, 2 expected. Check-ins A1, A2 and A1 again give roster A2, A1; the display count is 3 of 50. The end snapshot is A2, A1. The CSV line is `Intro to CS,2人,100%,A2` then `,,,A1` |
| Scenario.ExportOfTwoOfThree | src/app/admin/page.tsx:127-141 | title 数学, 3 expected, S1 and S2: the first row is `数学,3人,67%,S1` and the second `,,,S2` |
| Scenario.OneMinuteThenLateTick | src/app/admin/page.tsx:66-102 | a one-minute session and one tick 61 s later: the session has ended with the roster as stored |

## Left out

- The JSON format itself is not modelled. The roster's stored text is a length-prefixed encoding. What the pages rely on, that reading back gives the written roster and that unreadable text gives none, is what the model keeps.
- `Js.ToNumber` and `Js.ParseInt` work on integers only; JavaScript numbers are doubles. The differences:
  - `Js.ToNumber` reads decimals and exponents as NaN, where `Number` gives their value. The number inputs of the teacher page pass such text through. Typing 1.5 minutes makes the page run a 90-second session and store `1.5` as the length. The model instead holds a NaN length and stores `NaN` as the end time, and its session never ends by the clock, only by hand.
  - A decimal head count likewise reads as NaN. The model then writes `NaN` as the head count in the CSV with a rate of 0, where the page writes the decimal and the rate it gives.
  - `Js.ParseInt` stops at the first character that is not a digit, as `parseInt` does: `1.5` reads as 1.
  - Only space, tab, line feed and carriage return are trimmed or skipped. Vertical tab, form feed and the non-ASCII white space JavaScript also skips are not.
  - Integers are unbounded. Beyond 2^53 the page loses precision, and from 10^21 on number-to-text switches to exponent form. A length of 2 * 10^16 minutes makes the page store an end time in exponent form that `parseInt` reads as 1, so the page ends the session at its first tick while the model keeps it running.
- `Js.RoundRate`: JavaScript rounds halves up in floating point; the model rounds halves up exactly. They differ only through binary rounding error.
- Negative zero is not distinguished from zero.
- The stale closure in the message handler is not modelled. It checks duplicates against the roster of the last render. The model checks against the current roster. Two messages for one id delivered before a re-render could both be added by the page.
- The stored length `classTimer`, which the student page reads into an unused variable, is not modelled.
- Not modelled: the message pop-up and its timeout, the wall clock display, date rendering, the password screen, `src/app/admin.tsx` and routing. The clock and the calendar date are parameters.
- `Teacher.TeacherPage.DownloadCsv` accepts an empty id list. The page offers the button only on the ended screen with at least one id, so its else branch, which is modelled, is not reachable from the page.
- `Teacher.TeacherPage.End` has no precondition. The page calls it from the running screen, the interval and the restore; from any other state the model is still defined, and ending is idempotent.
- The CSV is written without quoting. `Teacher.CsvReadsBack` therefore requires cells free of commas and line breaks.
- Starting navigates to the student page. The model keeps the teacher page's state, so a `Tick` after `Start` stands for that page being open again.
