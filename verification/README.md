# EDUFACE attendance core in Dafny

EDUFACE is a FastAPI service that takes attendance by face recognition. A
camera frame goes to a face matcher. The matcher returns candidate gallery
images with distances. The service accepts or rejects the closest one,
enrols unknown codes, and records at most one arrival per student and day.
Arrivals after 07:30 are marked late. The service also manages students
and reports on attendance: daily counts, period summaries, a trailing week,
per-grade and arrival-time breakdowns, and a per-day report that adds a
synthesised "Ausente" row for every student of the class without a record.

This project models the decision and bookkeeping logic of `app/main.py`
and the schema of `app/db.py`. The SQLite database is a pair of immutable
sequences. The clock and the matcher's output are parameters. Every
handler is a pure function.

| module | what it holds |
|---|---|
| `Results` (results.dfy) | `Option`, `Result` and the failure kinds (not found, out of range, code taken, NOT NULL violation, date overflow, bad date, missing form field, failed photo write) |
| `Seqs` (seqs.dfy) | filtering, counting, pairwise properties and key sets over sequences |
| `Sorting` (sorting.dfy) | a stable insertion sort by a total preorder; `ORDER BY … LIMIT n` as `FirstSorted` |
| `Text` (text.dfy) | ASCII case mapping, Python `strip`, `str`/`int` of digit strings, SQLite `LIKE` and BINARY ordering |
| `Paths` (paths.dfy) | `os.path.basename`, `dirname` and `splitext` on '/'-separated paths |
| `Calendar` (calendar.dfy) | proleptic Gregorian dates 0001-01-01..9999-12-31, ordinals, weekdays (Monday = 0), day arithmetic with overflow, times of day with microseconds |
| `Store` (store.dfy) | the `students` and `attendances` tables, their constraints, the SQLite row-id rule and the attendance/student join |
| `Recognition` (recognition.dfy) | per-model defaults, the effective threshold, the accept/reject rule and the code of a matched image |
| `Students` (students.dfy) | create (JSON and form), get, list/search, partial update (JSON and form), delete, bulk clear |
| `Ledger` (ledger.dfy) | marking attendance, history, recent, today, the admin clears and counts |
| `Periods` (periods.dfy) | named periods (day, week, month) to date ranges |
| `Metrics` (metrics.dfy) | `metrics_today`, `metrics_summary`, `metrics_weekly`, `metrics_by_grade`, `metrics_detailed` |
| `Report` (report.dfy) | the rows of `export_attendance_pdf`, its per-status counts and the numbered table |
| `Findings` (findings.dfy) | the bulk student clear that leaves orphaned records behind, and its corrected form |

Behaviours of `app/main.py` kept as written:
- An absent report row carries midnight of the report's day as its time.
  Rendered with `%H:%M` it prints "00:00", not a "--:--" placeholder.
- `metrics_summary` does not reject a range whose end lies before its
  start. Such a range selects nothing.
- The `period` enum is not checked: an unknown period name, like an empty
  one, leaves the range unbounded.
- The report filters records on the date part of `time`
  (`func.date(Attendance.time)`), not on the `date` column.

## Model

| member | source | states |
|---|---|---|
| Recognition.DefaultsForModel | app/main.py:33-40 | a lower-cased model name containing "arc" gets Euclidean-L2 with 1.20; every other name, the facenet family included, gets cosine with 0.30 |
| Recognition.DefaultsIgnoreCase | app/main.py:34 | upper- or lower-casing the model name does not change its defaults |
| Recognition.ArcFaceDefaults | app/main.py:35-36 | "ArcFace" selects the Euclidean-L2 defaults |
| Recognition.FacenetDefaults | app/main.py:37-38 | "Facenet512" selects the cosine defaults |
| Recognition.VggFaceDefaults | app/main.py:37-40 | "VGG-Face" falls through to the same defaults as "Facenet512", so the facenet branch changes nothing |
| Recognition.EffectiveMaxDistance | app/main.py:845 | the request's max_distance wins, then FACE_MAX_DISTANCE, then the model default |
| Recognition.Decide | app/main.py:853-865 | no rows gives unknown; a closest row strictly above the threshold gives above_threshold; a row other than the closest that lies strictly less than the margin behind gives low_margin with that distance and margin; otherwise a closest row is accepted and every other row is at least the margin behind it |
| Recognition.DecisionDeterminedUpToTies | app/main.py:855-865 | any two decisions the rule allows for the same rows agree, except on which of several equally close rows is named when accepting |
| Recognition.LowMarginRejects | app/main.py:863-865 | a closest row within the threshold with another row less than the margin behind is always rejected for low margin, also when the two are equally close |
| Recognition.AboveThresholdRegardlessOfMargin | app/main.py:860-862 | when every row is above the threshold the result is above_threshold, whatever the margin |
| Recognition.NonPositiveMarginAcceptsWithinThreshold | app/main.py:863 | with a minimum margin of 0 or less, a closest row within the threshold (equal included) is accepted with its distance |
| Recognition.CodeOfGalleryPath | app/main.py:866-867 | an identity path root/code/file yields code, whatever the root |
| Store.FindStudentUnique | app/db.py:15 | with unique ids, lookup by id finds the one student with that id |
| Store.JoinKeepsReferenced | app/main.py:897-899 | when every record's student exists, the join keeps every record in order |
| Store.JoinFinds | app/main.py:897-899 | a record whose student exists appears in the join paired with that student |
| Ledger.StatusAt | app/main.py:879-881 | 'Tarde' exactly when the time of day is strictly after 07:30:00.000000, else 'Puntual' |
| Ledger.ResolveOrRegister | app/main.py:869-874 | an existing code is returned unchanged; an unseen code is enrolled with name = code, a fresh id and no other column set |
| Ledger.ResolveFindsUnique | app/db.py:16 | with unique codes, resolving a code finds its one student and changes nothing |
| Ledger.MarkAttendance | app/main.py:876-885 | an existing (student, day) record is returned and nothing is written; otherwise exactly one record is appended with a fresh id, the given time and the cutoff status |
| Ledger.MarkIdempotent | app/main.py:877-878 | marking the same student again on the same day, at any later time, returns the first record and changes nothing |
| Ledger.MarkKeepsWellformed | app/db.py:36-38 | marking an existing student keeps unique ids, unique codes and one record per student and day |
| Ledger.MarkKeepsOnlyArrivals | app/main.py:881-882 | a mark only ever stores 'Puntual' or 'Tarde' |
| Ledger.MarkCode | app/main.py:869-885 | the reported student holds the code and is enrolled (name = code, fresh id) only when no student had it; the reported record is theirs for today, appended with a fresh id, the time of the match and the cut-off status only when they had none, and otherwise returned with the records unchanged; nothing else changes |
| Ledger.MarkCodeKeepsWellformed | app/db.py:36-38 | resolve-or-register followed by marking keeps every table constraint |
| Ledger.MarkCodeTwice | app/main.py:869-885 | a second match of the same code on the same day returns the same student and record and changes nothing |
| Ledger.AttendanceMark | app/main.py:841-887 | a rejected decision leaves the store unchanged and reports its reason; an accepted one reports the best distance and has exactly the effect of matching the code of the image's directory: at most one student enrolled and at most one record appended, stamped with the cut-off status |
| Ledger.AttendanceMarkKeepsWellformed | app/db.py:36-38 | the whole mark handler keeps every table constraint |
| Ledger.AttendanceMarkTwice | app/main.py:877-885 | repeating the same recognition on the same day changes nothing and gives the same answer |
| Ledger.History | app/main.py:1363-1381 | ids below 1 or limits outside 1..500 are out of range; an unknown student is not found; otherwise the result holds the min(limit, count) latest records of that student, latest first, and no left-out record is later than a listed one |
| Ledger.HistoryDefaultLimitAccepted | app/main.py:1364 | a history requested without a limit gets 30, inside 1..500, so it fails only for an id below 1 or an unknown student |
| Ledger.HistoryIsOwn | app/main.py:1368-1371 | every record of a history belongs to the student asked for |
| Ledger.RecentDefaultLimitAccepted | app/main.py:967 | a recent list requested without a limit gets 20, inside 1..200, so it always succeeds with at most 20 rows |
| Ledger.Recent | app/main.py:966-985 | limits outside 1..200 are out of range; otherwise the min(limit, count) latest joined records, latest first, none left out later than one listed |
| Ledger.AttendanceToday | app/main.py:894-917 | exactly the joined records dated today, latest first |
| Ledger.AttendanceTodayComplete | app/main.py:897-903 | in a consistent store a record is listed exactly when it is dated today |
| Ledger.ClearDate | app/main.py:921-926 | exactly the records of the day are removed, students are untouched, and the reported count plus what remains is the old total |
| Ledger.ClearDateForm | app/main.py:936-944 | a date that did not parse is refused; otherwise the day is cleared |
| Ledger.ClearAllAttendance | app/main.py:929-933 | every record is removed and their number reported; students stay |
| Ledger.CountRecords | app/main.py:958-963 | the total is the number of records and today's count never exceeds it |
| Ledger.ClearDateThenCount | app/main.py:958-963 | after clearing a day its count is 0 and the total has dropped by the number reported |
| Ledger.ClearAllThenCount | app/main.py:929-963 | after clearing everything both counts are 0 |
| Ledger.ClearDateKeepsWellformed | app/main.py:942 | clearing a day keeps every table constraint |
| Students.CreateStudent | app/main.py:1168-1185 | a taken code is refused; otherwise the row is appended under a fresh id with exactly the given columns and records are untouched |
| Students.CreateKeepsWellformed | app/db.py:16 | creating keeps unique codes and ids |
| Students.CreateThenGet | app/main.py:1201-1206 | the created student is what a lookup by its id returns |
| Students.NormalizeCodeIsNormal | app/main.py:1276 | a normalised code has no space, no ASCII capital and no surrounding whitespace |
| Students.NormalizeCodeIdempotent | app/main.py:1276 | normalising a normalised code changes nothing |
| Students.FormCode | app/main.py:1276 | the form's code is the normalised given code, else the normalised name, else `alumno_` and the timestamp, and it is always normal |
| Students.PhotoExt | app/main.py:1285 | the stored extension always starts with '.', '.jpg' when the upload has none |
| Students.PhotoUrlOfPlainCode | app/main.py:1286-1290 | for a code without '/' the photo URL is /media/students/ + code + extension |
| Students.CreateStudentForm | app/main.py:1265-1311 | an empty name is refused as a missing field; then a taken normalised code is refused; then a photo that cannot be stored aborts; otherwise the student is appended under a fresh id with that code (the given code, else the name, never the timestamp fallback), the non-empty form columns and a photo URL only when a file was named, records untouched |
| Students.CreateFormKeepsWellformed | app/main.py:1276-1309 | creating from the form keeps unique ids and codes and every record's student |
| Students.GetStudent | app/main.py:1201-1206 | ids below 1 are out of range, unknown ids not found, otherwise the student with that id |
| Students.ListStudents | app/main.py:1188-1198 | exactly the students passing the truthy grade, section and LIKE filters, ordered by name |
| Students.ListAllStudents | app/main.py:1190-1198 | without filters every student is listed once |
| Students.ListStudentsSearch | app/main.py:1195-1197 | a search term without wildcards lists exactly the students whose name or code contains it up to ASCII case |
| Students.UpdateStudent | app/main.py:1209-1218 | an unknown id is not found; clearing the name violates NOT NULL; otherwise the given fields are set, the rest kept, and no other row or record changes |
| Students.UpdateKeepsWellformed | app/main.py:1214-1216 | an update never touches code or id, so every constraint still holds |
| Students.UpdateNothing | app/main.py:1214-1215 | an empty update succeeds and changes nothing |
| Students.UpdateStudentForm | app/main.py:1315-1359 | an unknown id is not found; a photo that cannot be stored aborts with nothing changed; otherwise non-empty fields replace the old ones, a new photo URL uses the unchanged code, the student's row is replaced in place, every other row and every record stay |
| Students.UpdateFormKeepsWellformed | app/main.py:1326-1357 | the form update keeps unique ids and codes and every record's student |
| Students.DeleteStudent | app/main.py:1221-1261 | an unknown id is not found; otherwise that student and exactly their records are removed, everything else stays |
| Students.DeleteKeepsWellformed | app/db.py:24 | the cascading delete leaves no record without its student |
| Students.ClearAllStudentsAsWritten | app/main.py:1422 | the bulk delete empties the student table and leaves every record in place |
| Students.ClearAllStudents | app/main.py:1383-1424 | the corrected clear empties both tables and reports the number of students |
| Findings.OrphanRecordResurfaces | app/main.py:1422 | after the bulk clear an old record is adopted by the next student enrolled, who gets id 1 and no record of their own |
| Findings.DeleteEachLeaves | app/main.py:1259-1260 | deleting students one at a time through the cascading delete leaves only other students and their records |
| Findings.ClearAllIsDeleteEach | app/db.py:24 | the corrected clear leaves what deleting every student through the cascade leaves |
| Findings.ClearAllThenMarkIsFresh | app/main.py:876-885 | after the corrected clear, the first match writes a fresh record stamped with its own time |
| Periods.ResolvePeriod | app/main.py:1015-1030 | a named period applies only without bounds; 'day' is today..today; 'week' and 'month' are the calendar week and month; any bound given is used as is |
| Periods.WeekOfFacts | app/main.py:1019-1023 | the week starts on a Monday, spans 7 days and holds today; it overflows exactly when its Sunday is past 9999-12-31 |
| Periods.MonthOfFacts | app/main.py:1024-1030 | the month runs from day 1 to its last day, with December ending on the 31st; it overflows only in December 9999 |
| Periods.LastWeekOverflows | app/main.py:1023 | the week of 9999-12-31 overflows |
| Calendar.MondayOfWeek | app/main.py:1021-1022 | subtracting the weekday lands on a Monday |
| Calendar.NextDayOrdinal | app/main.py:1022-1023 | the next day is one ordinal later; only 9999-12-31 has none |
| Calendar.AddDaysOrdinal | app/main.py:1023 | adding n days moves the ordinal by n and fails exactly past the last date |
| Calendar.SubDaysOrdinal | app/main.py:1106 | subtracting n days moves the ordinal by n and fails exactly before the first date |
| Calendar.OrdinalInjective | app/main.py:1037-1039 | ordinal order is calendar order, so date comparisons read off ordinals |
| Calendar.StampOrder | app/main.py:971 | timestamps order by date first, then time of day |
| Metrics.MetricsToday | app/main.py:988-1002 | total is the number of today's records in the attendance table, punctual and late the numbers of those with status 'Puntual' and 'Tarde', which together never exceed the total; absent is the shortfall against the student count, floored at 0 |
| Metrics.MetricsTodayBalances | app/main.py:996 | in a consistent store the floor never applies: present plus absent is the number of students, and punctual plus late is the total when only arrivals are stored |
| Metrics.RecordsOnDayAtMostStudents | app/db.py:36-38 | one record per student and day means no day has more records than students |
| Metrics.Summarize | app/main.py:1005-1096 | fails only when the named period overflows, and otherwise summarises the resolved range |
| Metrics.SummaryOver | app/main.py:1047-1088 | record and student totals of the class (students regardless of dates); the punctuality and late shares are the percentages of the selected records with status 'Puntual' and 'Tarde'; all shares within 0..100, zero when their denominator is zero |
| Metrics.SummarySharesComplete | app/main.py:1047-1060 | with only arrivals stored, punctual and late shares of a non-empty selection add up to 100 |
| Metrics.SummarizeWithBounds | app/main.py:1015 | once a bound is given the period name is ignored |
| Metrics.AbsentPctIsShare | app/main.py:1062-1088 | the absent share is the students of the class without a counted record, against all students of the class |
| Metrics.SummaryLoneBoundAbsence | app/main.py:1078-1088 | with only one bound, absence counts students who never had any record |
| Metrics.SummaryRangeAbsence | app/main.py:1063-1077 | with both bounds, absence counts students without a record inside the range |
| Metrics.AttendedAtMostInClass | app/main.py:1075-1076 | the students with records never outnumber the students of the class |
| Metrics.Trailing | app/main.py:1105-1106 | n trailing days fail exactly when the oldest would fall before 0001-01-01; otherwise there is one point per day, oldest first and ending today, each labelled with its weekday and carrying that day's records as a percentage of the students |
| Metrics.WeeklyFacts | app/main.py:1099-1111 | seven consecutive days ending today, each day's records as a percentage of the students, within 0..100 in a consistent store and 0 without students; fails only in the first six days of the calendar |
| Metrics.Bump | app/main.py:1126 | a counter goes up by one, a new key enters with 1, keys stay distinct |
| Metrics.TallyCounts | app/main.py:1124-1126 | each counter holds the number of elements with its key |
| Metrics.ByGrade | app/main.py:1114-1127 | distinct grade keys whose counts add up to today's joined records |
| Metrics.ByGradeCounts | app/main.py:1123-1126 | each grade's counter is the number of today's records of students with that key, a missing or empty grade counting as 'Sin grado' |
| Metrics.BucketIntervals | app/main.py:1148-1158 | the five half-open intervals, with every time before 07:30 in the '7:45-8:00' bucket |
| Metrics.Histogram | app/main.py:1144-1158 | five counters that add up to the number of rows |
| Metrics.HistogramCounts | app/main.py:1145-1158 | each counter is the number of rows arriving in its bucket |
| Metrics.MetricsDetailed | app/main.py:1130-1160 | count is the number of selected rows; gender counters and buckets each add up to it |
| Metrics.DetailedCounts | app/main.py:1143-1158 | each gender counter (a missing gender as '-') and each bucket is the number of selected rows with that key |
| Report.AbsentRows | app/main.py:1492-1498 | every absent row is a student of the class, dated the day, at midnight, reading 'Ausente' |
| Report.PresentRows | app/main.py:1453-1466 | every present row is a stored record of a student of the class whose time falls on the day |
| Report.FullRows | app/main.py:1524-1527 | without a status filter, the records come first and the absent rows after them |
| Report.ReportRows | app/main.py:1452-1527 | 'Ausente' lists only absent rows; another status lists only records with that status; no status lists records then absent rows |
| Report.AttendedIdsMeaning | app/main.py:1481-1490 | a student of the class counts as attended exactly when some record of theirs falls on the day |
| Report.MissingMeaning | app/main.py:1494-1496 | a student is missing exactly when they are of the class and have no record that day |
| Report.AbsentReportExact | app/main.py:1469-1498 | with 'Ausente' a student gets a row exactly when they are of the class and have no record that day |
| Report.FullShape | app/main.py:1525-1527 | without a status filter the rows are the records followed by the absent rows |
| Report.FullReportListsRecords | app/main.py:1453-1466 | without a status filter a student of the class with a record that day appears with a record |
| Report.FullReportAbsentExact | app/main.py:1500-1527 | without a status filter a student gets an absent row exactly when they are of the class and have no record that day |
| Report.FullReportNoClash | app/main.py:1513-1527 | no student is listed both with a record and as absent |
| Report.StatusReportExact | app/main.py:1462-1466 | a stored status lists exactly the day's records of the class with that status |
| Report.StatusCounts | app/main.py:1566-1571 | distinct status counters adding up to the number of rows |
| Report.FullReportAbsentCount | app/main.py:1566-1576 | without a status filter the 'Ausente' counter is the number of students of the class missing that day |
| Report.Numbered | app/main.py:1587-1592 | the table numbers the rows from 1 in order |
| Text.DecimalRoundTrip | app/main.py:1459 | reading back the decimal form of n gives n |
| Text.LikeContains | app/main.py:1196-1197 | `LIKE '%q%'` without wildcards in q holds exactly when q occurs in the value up to ASCII case |
| Text.StrLeTotal | app/main.py:1198 | any two names compare one way or the other |
| Text.StrLeTransitive | app/main.py:1198 | the name order is transitive |
| Paths.ExtensionOfPlainName | app/main.py:1285 | the extension of stem.x is .x |
| Paths.ExtensionWithoutDot | app/main.py:1285 | a file name without a dot has no extension |
| Sorting.FirstSorted | app/main.py:1371-1372 | the n first elements in order: min(n, count) of them, sorted, none left out ahead of one kept |

## Left out

- The face matcher: the DeepFace calls and the `/verify`, `/recognize` and `/analyze` endpoints are foreign calls. Their rows are an input sequence.
- The HTML dashboard and the reportlab PDF rendering. Only the list of rows the PDF is drawn from is modelled.
- File handling: temporary uploads, photo copies, folder and photo removal are not modelled. Their only effect on the tables is through failure, covered below.
- Students.CreateStudentForm and Students.UpdateStudentForm: whether the photo can be stored is a parameter (`photoWritten`). Writing the photo and creating the gallery folder run outside any `try` and before the commit, so a failure aborts the handler with nothing written; the copy into the gallery is inside a `try` and its failure is ignored.
- Students.DeleteStudent: a failed removal of the photo or the gallery folder is caught and does not abort the delete, so it is not modelled.
- The clock: `date.today()` and `datetime.now()` are separate parameters, so they may straddle midnight as in the code.
- Metrics.Weekly: the clock is read once. The code calls `date.today()` again on each of the seven iterations, so a run across midnight could mix two weeks; that is not modelled.
- SQLAlchemy sessions, the engine, the column migration, concurrency and the race on the unique constraint. Operations run one at a time.
- Logging with `print`.
- Recognition.EffectiveMaxDistance: takes FACE_MAX_DISTANCE already parsed. An unparsable value makes `float()` raise, which is not modelled.
- Recognition.Decide: distances are exact reals. Float rounding and NaN distances are not modelled.
- Metrics.SummaryOver and Metrics.Weekly: percentages are exact reals. `round(x, 2)` is not applied.
- Metrics.WeeklyFacts: day labels are the C-locale weekday abbreviations; `strftime` itself is not modelled.
- Text: upper- and lower-casing, `strip`, `isdigit` and `LIKE` folding are modelled on ASCII letters and digits only. Python's full Unicode tables are not modelled.
- Report.ReportRows: the `strptime` of the report date is a parameter already parsed; a bad date is refused before any rows are built.
- Ledger.ClearDateForm: the `strptime` of the form's date is a parameter already parsed (None when it failed); `strptime` itself is not modelled.
- Recognition.CodeOfIdentity and Paths: paths are split on '/' only, as POSIX `os.path` does. On Windows `os.path` also splits on '\', which is not modelled.
- Students.CreateStudentForm and Students.UpdateStudentForm: the registration date arrives already parsed or absent. An unparsable one is ignored, as in the code.
- Students.CreateStudentForm and Students.UpdateStudentForm: an empty form field is treated as missing, as FastAPI does for form parameters: the required name is refused, an optional field falls back to None. The request validation itself is not modelled beyond that.
- Store: when several rows match, `one_or_none()` would raise. The unique constraints rule that out in a consistent store, so lookups return the first match.
- Store: the status column default ('Puntual', `Store.DefaultStatus`) never applies, because every insert in the core sets the status.
- Store: a NULL status is not representable. No handler writes one.
- Report: the order of the joined records is taken as ledger order. SQLite promises no order without `ORDER BY`.
- Report: `str(student.grade)` and the other cell texts are rendering and are not modelled.

## Findings

| source | as written | input that shows it | evidently intended | confidence | as-written member | corrected member |
|---|---|---|---|---|---|---|
| app/main.py:1422 | the bulk clear deletes students with `Query.delete()`, which skips the ORM cascade of app/db.py:24, and SQLite does not enforce the foreign key, so every attendance record stays | Ana (id 1) arrives at 07:10; all students are cleared; Luis is matched at 08:05, enrolled with row id 1, and is answered with Ana's 07:10 'Puntual' record | clearing students also removes their records, as the single delete does | not executed | Findings.OrphanRecordResurfaces | Findings.ClearAllIsDeleteEach |
