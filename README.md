# Attendance engine of the Pi attendance script, in Dafny

This project models the attendance engine of `check_script.py`. The script runs on a Raspberry Pi beside a classroom. Once a minute it does five things:

- It reads the names of the paired Bluetooth devices.
- It tracks how long each device has been seen without a break.
- It marks a student present for the class in session once the student's registered device has been seen long enough.
- It counts the students marked present per module.
- It writes each module's cohort size to the data store.

The store is a Firebase database with two collections, `/modules` and `/students`. In the model, each collection is a sequence of records in the store's iteration order, with unique keys. A read is an input value, and a write is a returned description of what is written. Each of the script's functions is split in two:

- a specification function, which states the result;
- where the script loops, a method with the same loop, proved against that function.

Two loops are exceptions and are modelled as values. The resolver's search over the modules (`check_script.py:73-84`), which returns at its first match, is the recursive function `Schedule.ResolveFrom`. The write-back loop over the counters (`check_script.py:125-129`) is the map comprehension `PresentTotals.PresentWrites`, from module id to the total written.

Lemmas then prove what the specification functions promise.

Modules:

- **Wrappers**: `Option` and `Result`.
- **Text**: the Python string operations the script uses. These are `in`, `split(sep, maxsplit)`, `strip()` and `splitlines()`.
- **Clock**: the naive local `datetime` the script reads.
  - A moment is a day number plus microseconds since midnight.
  - A weekday name is derived from the day number.
  - A schedule time `HH:MM` becomes microseconds since midnight.
- **Records**: the module and student documents, and the per-date attendance record. The record is missing, a legacy single string, or a dictionary from module id to `"<name>: <status>"`.
- **Devices**: parsing the `bluetoothctl paired-devices` output.
- **Tracker**: the `device_connection_times` map, as the class `PresenceTracker`.
- **Schedule**: the resolver, which finds the module in session for a course year.
- **Marking**: the decision engine `check_and_mark_attendance`. It includes the registered-device map and the record `mark_student_present` writes.
- **PresentTotals**: the present-count aggregator.
- **Cohort**: the per-year headcount and its write-back.

The engine's behaviour, as modelled:

- **Marking.** A tracked device whose name is registered to a student is marked when three things hold: its student's course year has a module in session; that module's id is not empty; and the device has been seen for at least the module's `attendanceTime` minutes. The threshold is inclusive. A marked device restarts at `now`. Every other device keeps its time, and no device is added or dropped.
- **The record written.** A mark `set`s the student's record for the date to a single entry `{module_id: "<name>: present"}`. The name defaults to `"Unknown Module"`. This overwrites any earlier entries for that date, as the code does.
- **Counting.** The aggregator counts record values, not students. A student whose dictionary holds two values that count for one name adds two.
- **Values the aggregator cannot read.** A value with a `:` but without exactly one `": "` raises, and the model returns that as an error result. This includes the value written for a module whose name itself holds `": "`.
- **Names shared by several modules.** The write-back goes to the last module of that name.

## Model

| member | source | states |
|---|---|---|
| Text.Contains | check_script.py:41 | `"Device" in line` holds exactly when the pattern occurs at some index of the line |
| Text.FindFrom | check_script.py:41 | the search reports the first index at or after its start where the pattern occurs, or reports that there is none |
| Text.SplitLines | check_script.py:40 | `splitlines()` gives lines that hold no line boundary, and no lines exactly for the empty text |
| Text.ContainsChar | check_script.py:116 | `":" in s` holds exactly when some character of `s` is `:` |
| Text.SplitNMeaning | check_script.py:42 | `s.split(sep, maxsplit)` has at least one part and at most `maxsplit + 1`. Joining the parts with `sep` gives `s` back. No part before the last holds `sep`, nor does the last one unless the split limit was reached. With a separator that overlaps itself, such as `"aa"` in `"aaa"`, this shape does not single out Python's leftmost split; the separators split on here, `" "` and `": "`, do not overlap themselves |
| Text.SplitMeaning | check_script.py:117 | `s.split(sep)` without a limit: the parts join back to `s`, and no part holds `sep` |
| Text.SplitPair | check_script.py:117 | `(a + ": " + b).split(": ")` is `[a, b]` when neither side holds `": "` |
| Text.SplitMoreThanPair | check_script.py:117 | a string holding `": "` at two places does not split into exactly two parts |
| Text.StripMeaning | check_script.py:118 | `s.strip()` is a slice of `s` with only whitespace before and after it, and it neither starts nor ends with whitespace |
| Text.StripPadded | check_script.py:118 | stripping whitespace padding around a word gives back exactly the word |
| Text.SplitJoinLines | check_script.py:40 | `splitlines()` of lines joined by `"\n"` gives back those lines when none holds a line break |
| Clock.DayName | check_script.py:70 | `strftime("%A")`: the English weekday name. It is "Monday" exactly on the days whose `toordinal()` is 1 modulo 7, day 1 being a Monday |
| Clock.MicrosOfDay | check_script.py:80-82 | the time of day of a parsed `HH:MM` (hour below 24, minute below 60) lies within one day |
| Clock.StampOrder | check_script.py:169 | between valid moments, stamps compare as (date, time of day) pairs |
| Devices.DeviceNames | check_script.py:36-47 | `get_connected_devices` once the command has run: no names on a non-zero return code, otherwise the names of the output's lines in order. What it holds is proved by `DevicesOfLinesMembers` and `ListingRoundTrip` |
| Devices.NameField | check_script.py:42-44 | the third field of `line.split(' ', 2)` when there are more than two fields. When it exists is proved by `NameFieldIff`, and what it is by `NameFieldOf` |
| Devices.LineDevice | check_script.py:41-45 | the names one line contributes: its third field, when the line contains `"Device"` and has one. Proved by `DevicesOfLinesMembers` and `LineDeviceOf` |
| Devices.ParseDevices | check_script.py:36-47 | a non-zero return code gives no devices. Otherwise the loop over the output's lines builds exactly `DeviceNames`: the third field of `split(' ', 2)` of each line containing `"Device"` that has more than two fields, in line order, with repetitions kept |
| Devices.NameFieldIff | check_script.py:42-44 | a line has a third field exactly when it holds at least two spaces |
| Devices.NameFieldOf | check_script.py:42-44 | the third field of `"<a> <b> <name>"` is `name` whenever `a` and `b` hold no space, even if `name` does |
| Devices.DevicesOfLinesMembers | check_script.py:40-45 | a name is listed exactly when some line contains `"Device"` and has that name as its third field |
| Devices.ListingRoundTrip | check_script.py:36-47 | parsing a successful listing of `Device <address> <name>` lines gives every name back, in listing order |
| Devices.LineDeviceOf | check_script.py:41-45 | one listing line contributes exactly its device name |
| Devices.OneDevicePerLine | check_script.py:40-45 | when each line contributes one name, the list is those names in line order |
| Tracker.Inserted | check_script.py:54-56 | after the insertion loop the keys are the old keys plus the detected names. Old entries keep their time, and new names get `now` |
| Tracker.Reconciled | check_script.py:54-58 | after reconciliation the tracked names are exactly the detected ones. A name tracked before keeps its time, and a new name maps to `now` |
| Tracker.PresenceTracker.constructor | check_script.py:49 | the tracker starts empty |
| Tracker.PresenceTracker.Update | check_script.py:51-58 | the in-place update: tracked keys equal the detected set, old names keep their time, new ones get `now` |
| Tracker.ContinuousPresence | check_script.py:51-58 | a device detected by every scan keeps one start time: the one it had before, or the first scan's moment |
| Tracker.Reappearance | check_script.py:51-58 | a device missing from one scan restarts at the first scan after its absence |
| Tracker.Purged | check_script.py:57-58 | a device the latest scan did not detect is no longer tracked |
| Records.FindModule | check_script.py:90-92 | the module stored under an id is found exactly when one has that id |
| Records.FindStudent | check_script.py:163-164 | the student stored under a key is found exactly when one has that key |
| Schedule.InSession | check_script.py:74-82 | the resolver's test of one module: equal years (two missing years are equal), an entry for today's weekday with both times, and start ≤ time of day ≤ end. `Resolve` is stated in terms of it |
| Schedule.Activation | check_script.py:83-84 | the triple returned for a module in session: its id, `attendanceTime` or 0 when absent, and its end time. `ResolveFromMeaning` and `Resolve` are stated in terms of it |
| Schedule.ResolveFrom | check_script.py:73-85 | the resolver's loop, as recursion from a position in the modules. Its meaning is proved by `ResolveFromMeaning` |
| Schedule.ResolveFromMeaning | check_script.py:73-85 | the search from a position reports no class exactly when no later module is in session. Otherwise it reports the first module in session from there: its id, `attendanceTime` or 0, and end time |
| Schedule.Resolve | check_script.py:68-85 | no class exactly when no module is in session. In session means the years are equal, today's schedule entry has both a start and an end time, and start ≤ time of day ≤ end. Otherwise the result is the first module in session, in iteration order |
| Schedule.ResolveOnly | check_script.py:73-84 | when exactly one module is in session, that module is reported |
| Schedule.EarlierWins | check_script.py:73-84 | when two modules are in session, the later one in iteration order is not reported |
| Marking.DeviceOwners | check_script.py:61-66 | a device name is in the map exactly when some student registered it, and it maps to the key of the last such student |
| Marking.PresentRecord | check_script.py:88-98 | nothing is written exactly when no module has the id. Otherwise the record is the single entry `{id: "<name or Unknown Module>: present"}`, which replaces the date's earlier record |
| Marking.PresentRecordCounts | check_script.py:95 | the written record is one value, which the aggregator counts for the module's name when the name holds no `": "` |
| Marking.MarksOnOtherDateUnseen | check_script.py:88-95 | marks written under one date leave the totals for any other date unchanged. After midnight the marks go to the new day while the totals keep the start-up date |
| Marking.ApplyMarks | check_script.py:94-95 | after the writes, a written student's record for the date is the written record and nothing else. Other dates, other students and other fields are unchanged |
| Marking.Verdict | check_script.py:161-169 | the decision for one tracked device. A mark is for the device's registered student and a non-empty module id. When exactly a device is marked is proved by `VerdictMeaning` |
| Marking.StudentRecord | check_script.py:163-170 | the record written for a marked student: only for a stored student, and always a single entry. Which entry is stated by `PresentRecord` and proved by `RecordsAt` |
| Marking.Writes | check_script.py:160-170 | the records one pass writes. Every written student owns a tracked, registered device, and gets its `StudentRecord`. Exactly who is written is proved by `WritesMeaning` |
| Marking.Restamped | check_script.py:160-171 | the engine's pass neither adds nor drops a tracked device |
| Marking.CheckAndMark | check_script.py:157-171 | the loop over tracked devices leaves the tracker at `Restamped`. It returns as writes exactly `Writes`: one record per marked student whose module is stored |
| Marking.VerdictMeaning | check_script.py:160-169 | a device is marked exactly when it qualifies: it is registered, the first module in session for its last registrant's year has a non-empty id, and `now - since` is at least `attendanceTime` minutes. It is then marked for that student and module |
| Marking.VerdictRecord | check_script.py:166-170 | a marked device's student gets the module's present record exactly when the module is stored |
| Marking.RecordsAt | check_script.py:88-98 | a student has a record to write exactly when the student is stored, a module is in session for its year, and that module is stored |
| Marking.RestartedExactly | check_script.py:160-171 | after the pass, a device's time is `now` exactly when it qualified. Otherwise it is unchanged, and the key set is unchanged |
| Marking.ThresholdInclusive | check_script.py:168-169 | a device seen for exactly `attendanceTime` minutes is marked |
| Marking.NoImmediateRemark | check_script.py:169-171 | a device just restarted is not marked again at the same moment when its attendance time is positive |
| Marking.WritesMeaning | check_script.py:160-170 | a student is written exactly when one of its tracked devices was marked for a stored module. The record is that module's present record |
| PresentTotals.ParseStatus | check_script.py:116-121 | how the aggregator reads one value: skipped without `:`, an error unless `split(": ")` gives exactly two parts, otherwise a name and a status. Its meaning is proved by `ParseShape`, `ParseRoundTrip`, `SeparatorInNameFails` and `ColonWithoutSpaceFails` |
| PresentTotals.ParseShape | check_script.py:116-117 | a value is skipped exactly when it has no `:`. A value read as an entry is its name and status around its only `": "` |
| PresentTotals.ParseRoundTrip | check_script.py:117 | `name + ": " + status` reads back as that name and status when neither holds `": "` |
| PresentTotals.SeparatorInNameFails | check_script.py:117 | a value whose name part holds `": "` makes the script raise |
| PresentTotals.ColonWithoutSpaceFails | check_script.py:116-117 | a value with `:` but no `": "` (such as `"a:b"`) makes the script raise |
| PresentTotals.PresentIsClean | check_script.py:118 | the status `"present"` holds no `": "` and strips to itself |
| PresentTotals.PresentValueCounts | check_script.py:118-119 | the value `"<name>: present"` counts one for `name` when the name holds no `": "` |
| PresentTotals.RecordValues | check_script.py:113-120 | the values scanned in one record: none for a missing or falsy record, the string for a legacy record, the dictionary's values otherwise. Proved by `EntryValues`, `LegacyAsKeyed` and `SilentStudent` |
| PresentTotals.EntryValues | check_script.py:115 | the values of a dictionary record are its entries' values, in order |
| PresentTotals.FirstMalformedMeaning | check_script.py:113-123 | the scan fails exactly when some value is malformed, and then on the first malformed value in scan order |
| PresentTotals.FirstMalformedAppend | check_script.py:109-123 | scanning two runs fails on the first run's failure, or else on the second's |
| PresentTotals.PresentCount | check_script.py:118-119 | a name's tally is at most the number of values scanned |
| PresentTotals.PresentCountAppend | check_script.py:109-123 | the tally over two runs of values is the sum of their tallies |
| PresentTotals.PresentCountPermutation | check_script.py:109-123 | the tally does not depend on the order students or values are scanned in |
| PresentTotals.PresentCountSnoc | check_script.py:118-119 | one more value adds one to a name's tally exactly when it counts for that name |
| PresentTotals.CountsStep | check_script.py:118-119 | one more value bumps the counter of the name it counts for, if a module has that name, and changes nothing else |
| PresentTotals.ScanStep | check_script.py:115-119 | a value that is not malformed keeps the scan going and bumps its name's counter |
| PresentTotals.NameToId | check_script.py:104 | the `name_to_id` comprehension, where a later module overwrites an earlier one of the same name. Its meaning is proved by `NameToIdMeaning` |
| PresentTotals.Counts | check_script.py:105-123 | `total_present_per_name` after scanning some values: every module name, with the tally of that name. Its steps are proved by `CountsStep` and `ScanStep` |
| PresentTotals.NameToIdMeaning | check_script.py:104 | `name_to_id` has every module name (missing names included) as a key, mapping to the id of the last module of that name |
| PresentTotals.NameToIdInjective | check_script.py:104 | with unique module ids, two names never map to the same id |
| PresentTotals.PresentWrites | check_script.py:125-129 | the write-back loop as a map from module id to total. What is written is proved by `PresentWritesMeaning` and `PresentWritesIds` |
| PresentTotals.PresentTotals | check_script.py:101-130 | the whole aggregation: the error on the first malformed value, or else the write-back of the counters. `CalculateTotalPresent` is proved equal to it, and `PresentWritesMeaning` states its writes |
| PresentTotals.PresentWritesMeaning | check_script.py:125-130 | a module is written exactly when it is the last of its name and its id is not empty. The value is its name's tally, or 0 for a module without a name. No id outside the stored modules is written |
| PresentTotals.PresentWritesIds | check_script.py:126-129 | every id written is the id of a stored module |
| PresentTotals.CalculateTotalPresent | check_script.py:101-130 | the nested loops give the error on the first malformed value, or else the totals of `PresentTotals` |
| PresentTotals.ScanRecord | check_script.py:113-123 | the inner loop over one record stops at its first malformed value. Otherwise it leaves the counters tallied over the record's values |
| PresentTotals.TotalsFail | check_script.py:113-123 | proof step: unfolds `PresentTotals` in the case where the scan of all students fails, giving the error for that value |
| PresentTotals.TotalsPass | check_script.py:125-130 | proof step: unfolds `PresentTotals` in the case where the scan of all students passes, giving the write-back of the final counters |
| PresentTotals.RecordFails | check_script.py:113-117 | when the scan so far has not failed, a record holding a malformed value fails it on that record's first one |
| PresentTotals.FailsInRecord | check_script.py:109-123 | once a record holds the first malformed value, the whole scan fails on that value |
| PresentTotals.FailureStays | check_script.py:109-123 | once the scan of the first students has failed, scanning more students fails on the same value |
| PresentTotals.StudentScanned | check_script.py:109-119 | a student's record scanned without failure extends the scan by exactly its values |
| PresentTotals.MalformedAt | check_script.py:115-117 | the first value of a record that fails to read is the record's first malformed value |
| PresentTotals.ScanValueStep | check_script.py:115-119 | a well-formed value keeps the record's scan going and bumps the counter of the name it counts for |
| PresentTotals.PresentCountRemove | check_script.py:118-119 | a name's tally is the tally without any one value, plus what that value counts |
| PresentTotals.LegacyAsKeyed | check_script.py:113-123 | a non-empty legacy string record (the `elif` branch) is scanned exactly as a one-entry dictionary holding that string. The empty string is falsy and scans nothing, while a dictionary holding `""` scans one value, so the lemma requires a non-empty string |
| PresentTotals.SameRecordsSameValues | check_script.py:109-111 | the scan reads, of each student, only the record for the date |
| PresentTotals.SilentStudent | check_script.py:113 | a student with no record for the date, or an empty one, adds nothing to the scan |
| PresentTotals.ValuesUpToPrefix | check_script.py:109-111 | the scan of the first `n` students reads only those students |
| PresentTotals.ApplyPresent | check_script.py:128-129 | `update({"totalStudentsPresent": n})` sets only that field of the written date nodes. `totalStudents`, other dates and other modules are kept |
| PresentTotals.SameNamesSameTable | check_script.py:104-105 | the name table and counters depend only on the modules' ids and names |
| PresentTotals.RecountAfterWrite | check_script.py:101-130 | writing the totals and computing them again gives the same totals |
| PresentTotals.PresentCountOne | check_script.py:118-119 | a value that counts for a name makes its tally at least one |
| PresentTotals.PresentCountTwo | check_script.py:118-119 | two values that count for a name make its tally at least two |
| PresentTotals.CountsEntriesNotStudents | check_script.py:114-119 | one student whose dictionary record holds two values counting for a name adds two to its tally |
| PresentTotals.NoSeparatorIn | check_script.py:116 | a string without `:` holds no `": "` |
| Cohort.CohortSize | check_script.py:137-141 | a cohort has at most as many students as there are |
| Cohort.CohortSizeZero | check_script.py:137-141 | a cohort is empty exactly when no student has that year |
| Cohort.YearCounts | check_script.py:133-142 | `get_total_students_per_year`: each truthy year to its cohort size. Its meaning is proved by `YearCountsMeaning` |
| Cohort.YearCountsMeaning | check_script.py:133-142 | a year is in the table exactly when it is non-empty and some student has it. Its count is the number of students with that year |
| Cohort.StudentsPerYear | check_script.py:133-142 | the accumulating loop builds exactly `YearCounts` |
| Cohort.PerYearStep | check_script.py:138-141 | one more student adds one to its truthy year, starting that year at one, and leaves the table alone otherwise |
| Cohort.WritesUpToMeaning | check_script.py:149-154 | after `k` modules, exactly those with a truthy year are written, each with its year's count or 0 |
| Cohort.Headcounts | check_script.py:144-154 | the writes of `update_module_student_totals`, by module id. Their meaning is proved by `HeadcountsMeaning` |
| Cohort.HeadcountsMeaning | check_script.py:144-154 | exactly the modules with a truthy year are written, each with the number of students of that year (0 when none). No other id is written |
| Cohort.UpdateModuleStudentTotals | check_script.py:144-154 | the loop over modules builds exactly `Headcounts` |
| Cohort.WritesReadIdsAndYears | check_script.py:149-152 | the headcount writes read only the modules' ids and years |
| Cohort.CohortSizeReadsYears | check_script.py:137-141 | a cohort's size reads only the students' course years |
| Cohort.HeadcountIgnoresAttendance | check_script.py:133-142 | changing anything but the students' course years, such as their attendance, leaves the headcount writes unchanged |
| Cohort.ApplyHeadcount | check_script.py:153-154 | `update({"totalStudents": n})` sets only that field of the written date nodes |
| Cohort.RecountHeadcounts | check_script.py:144-154 | writing the headcounts and computing them again gives the same writes |
| Cohort.WriteBacksCommute | check_script.py:153-154 | the present-count and headcount write-backs touch different fields, so their order does not matter |

## Left out

- Firebase setup and every store read and write. Reads are input sequences, and writes are returned maps or the `Apply…` functions. Concurrent writers, such as the companion app, are not modelled.
- An empty collection. The store's `get()` returns `None` for a node that does not exist, and an empty `/students` or `/modules` does not exist. The script then raises on `.items()`. The model reads an empty collection as the empty sequence and returns a normal result instead. The affected members follow, one line each.
- Marking.DeviceOwners: with no students stored, `fetch_student_device_names` raises at `check_script.py:64` on every pass. The model returns the empty map.
- Schedule.Resolve: with no modules stored, the resolver raises at `check_script.py:73` once a registered device is tracked. The model returns `NoClass`.
- PresentTotals.PresentTotals: with no modules or no students stored, the aggregator raises at `check_script.py:104` or `check_script.py:109`. The model returns `Ok` of the empty writes.
- Cohort.YearCounts: with no students stored, `get_total_students_per_year` raises at `check_script.py:137`. The model returns the empty table.
- Cohort.Headcounts: with no students or no modules stored, `update_module_student_totals` raises at `check_script.py:137` or `check_script.py:149`. The model returns no writes.
- Text.SplitNMeaning: the shape it proves does not say that each cut is at the leftmost remaining occurrence, which is what Python does. This matters only for a separator that overlaps itself, such as `"aa"`; the script splits on `" "` and `": "`.
- The `bluetoothctl` subprocess itself. Its return code and output text are inputs to `Devices.ParseDevices`.
- `datetime.now()`, `date.today()`, `strftime("%A")` and `strptime("%H:%M")`. The moment is an input `Clock.Instant`, the date an input string, and schedule times are pre-parsed `TimeOfDay` values. Malformed schedule times, which would make `strptime` raise, are not modelled.
- The engine reads the clock once per pass (`check_script.py:158`), and the resolver reads it again on each call (`check_script.py:69`), that is once per registered tracked device (`check_script.py:160-166`). The threshold test (`check_script.py:169`) uses the engine's reading. The model uses one `now` for the engine and every resolver call, so a pass that straddles a class's start or end time resolves every device against the same moment.
- `int(times.get('attendanceTime', 0))` is a natural number of minutes. A non-numeric value, which would raise, is not modelled.
- The script re-reads each student and module in the engine loop from the same store. The model uses one snapshot, so a student found in the owner map is always found by key.
- Marking.CheckAndMark: the model does not fix the order of the loop over tracked devices. The script iterates the dictionary in insertion order, while the model iterates the tracked keys as a set. This is exact, because a device's decision and its student's record do not depend on the other devices. When two devices of one student are marked, both write the same record.
- Marking.PresentRecord: this follows the code, which `set`s the per-date record and so drops earlier entries for that date. A merge is not modelled.
- PresentTotals.CalculateTotalPresent: the `isinstance(…, dict)` test is the record's datatype. A student node that is not a dictionary is not modelled.
- Cohort.StudentsPerYear: the `if student_info:` test for an empty student node is not modelled, since a student record always has its key. Such a node has no `courseYear` and is skipped either way.
- The `main` loop and `time.sleep(60)`. Successive scans of the tracker are modelled by `Tracker.AfterScans` and the lemmas about them. The rest of the loop is not modelled as a sequence of passes.
- The date each write goes to. `mark_student_present` takes `date.today()` at every mark (`check_script.py:89`). The totals and headcounts use the date computed once at start-up (`check_script.py:175`, `check_script.py:180-181`). So once the script runs past midnight, marks go to the new day, while totals keep counting and writing the start-up date. The model gives each operation its date as an input and does not model this divergence. `Marking.MarksOnOtherDateUnseen` shows its consequence: marks made under the new date do not change the totals for the start-up date.
- All `print` logging.
- `pi_stats.py` collects system metrics as floating point and has no logic that is verified here.
