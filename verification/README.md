# GuroCroll schedule cache, modelled in Dafny

GuroCroll shows the outpatient clinic schedules of a hospital's doctors, grouped
by department. A background worker loads the whole doctor directory. It then
fetches every doctor's schedule over a window from the first day of the month
three months back to the last day of the month three months ahead. The results
go into three in-memory caches, and a JSON API answers from those caches. The
worker runs once at start-up and then every day at 05:00. A second module holds
a command-line report: for one department and one `YYYYMM` month, it lists each
doctor's morning and afternoon clinic days.

The model covers that logic as follows.

- **`Dates`**
  - The Gregorian month length that `calendar.monthrange` gives.
  - The text forms the code writes: `f"{n}"` and `f"{n:02d}"`.
  - Reading a string back with `int(...)`.
  - Round-trip lemmas between writing and reading those forms.
- **`Croll`**
  - The upstream records.
  - The inquiry parameters that `get_schedule` and `get_schedule_range` send.
  - The department filter.
  - The morning/afternoon labelling.
  - The whole `get_department_schedules` report, with its printed lines modelled as values.
- **`NameOrder`**
  - Python's `str` ordering.
  - `sorted(..., key=...)`, given as an insertion sort.
  - Proofs that the sort yields an ordered permutation and is stable.
  - A proof that any two sequences with those properties are equal.
- **`Aggregation`**
  - The value-level meaning of `preload_all`: the department list, the name groups, the per-doctor records and the cache after a refresh.
  - The two imperative loops of `preload_all`, proved against those values.
- **`App`**
  - The range computation, with its two `while` loops.
  - The wait until the next 05:00.
  - The `AppState` class: the globals `_doctors`, `_dept_list`, `_schedule_cache` and `_loading` as fields.
  - Methods for the preload, the start-up step and one daily-refresh step.
  - The three JSON handlers as functions of that state.

The network is a parameter. The directory call is a `DirectoryOutcome`, which is
either `Directory(doctors)` or `DirectoryFailed`. The schedule request is a
function from the request parameters (`Inquiry`) to `Fetched(entries)` or
`FetchFailed`. The clock is a `Clock` value holding the year, month, hour and
minute of `time.localtime()`.

Some behaviours of the code are easy to miss; the model follows them.

- **No atomic swap.** `_dept_list` is replaced before any schedule is fetched. Cache entries are then written one department name at a time. The cache is never cleared, so entries for names that left the directory stay.
  - `App.AppState.PreloadAll` follows that order.
  - The loop invariant of `App.AppState.WriteSchedules` describes the partly written cache.
- **A failed first load is fatal.** `background_init` has no `try`. If the first preload fails, `_loading` stays true for good and the daily loop never starts.
- **An empty `dept` is also rejected.** `/api/schedules` answers 400 both when `dept` is missing and when it is an empty string.
- **The loading flag belongs to start-up.** Only `background_init` clears `_loading`. A later refresh never changes it.
- **The two keys disagree.** The department list is keyed by code and the cache by name. Two codes that share one name give two list entries but one cache entry, which holds both codes' doctors. `App.SharedNameList` and `App.SharedNameCache` show this case.

## Model

| member | source | states |
|---|---|---|
| Dates.DaysInMonth | app.py:31 | a month has 28 to 31 days; February has 29 exactly in a Gregorian leap year, and every other month has at least 30 |
| Dates.DecimalString | app.py:32-33 | `str(n)` of a natural number is a non-empty string of digits; it starts with `0` only for zero and is one digit exactly below ten |
| Dates.IntString | app.py:32-33 | `f"{n}"` is the decimal digits, with a leading minus sign for a negative number |
| Dates.Pad2 | croll.py:39 | `f"{n:02d}"` is all digits, at least two of them, and exactly two below 100 |
| Dates.ParseDecimal | croll.py:31-32 | `int(s)` is defined exactly when `s` is a non-empty string of digits |
| Dates.ParseDecimalString | croll.py:31-32 | reading back the decimal text of `n` gives `n` |
| Dates.ParsePad2 | croll.py:39 | reading back the zero-padded text of `n` gives `n` |
| Dates.FourDigits | app.py:32-33 | a year from 1000 to 9999 is written with four digits |
| Dates.YmdFields | app.py:32-33 | `f"{y}{m:02d}{d:02d}"` for a four-digit year is eight digits, and its year, month and day fields read back as the numbers it was built from |
| Croll.RangeInquiry | croll.py:48-56 | `get_schedule_range` asks for hospital `GR`, the doctor and the EMR department, with `start_ymd` and `end_ymd` passed through unchanged |
| Croll.MonthInquiry | croll.py:30-41 | `get_schedule` succeeds exactly when `year_month[:4]` and `year_month[4:6]` are digit strings and the month is in 1..12; it then asks for hospital `GR` from `year_month + "01"` to `year_month` plus the two-digit last day of that parsed year and month, a day in 28..31 |
| Croll.MonthErrorIgnoresDoctor | croll.py:31-33 | whether the month text is rejected does not depend on the doctor |
| Croll.MonthInquiryIsRangeInquiry | croll.py:30-56 | for a well-formed `YYYYMM`, `get_schedule` sends what `get_schedule_range` sends for the 1st through the last day of that month, the bounds passed through unchanged |
| Croll.MonthSchedule | croll.py:30-45 | one `get_schedule` call: a rejected month text fails before any request, a failed request fails as such, and otherwise the result is exactly the entries the request returned |
| Croll.SelectDept | croll.py:66-69 | the comprehension keeps no more doctors than the directory has, each of them of the requested department |
| Croll.SelectDeptAppend | croll.py:66-69 | the department filter distributes over concatenation, so it keeps directory order |
| Croll.SelectDeptMembers | croll.py:66-69 | the filter keeps exactly the doctors whose `deptNm` equals the requested name |
| Croll.Labels | croll.py:92-99 | an entry is morning iff `amSttsDvsnCd == "1"` and afternoon iff `pmSttsDvsnCd == "1"`, morning listed first |
| Croll.StatusLabels | croll.py:92-99 | the `status` list built by appending equals those labels |
| Croll.DateLinesReportFlaggedEntries | croll.py:90-102 | every printed date line comes from an entry with a set flag; there are no date lines exactly when no entry has a flag set |
| Croll.DatedLines | croll.py:90-102 | the loop over a schedule prints the dated lines, in schedule order |
| Croll.DoctorSection | croll.py:84-102 | a doctor's lines start with the name; the "no clinic" line appears exactly when the schedule is empty, and then it is the only line after the name |
| Croll.ReportDoctor | croll.py:84-102 | the per-doctor branch produces that doctor's section |
| Croll.DoctorsReport | croll.py:77-102 | the per-doctor loop sends at most one request per doctor; when no call raises it sends exactly one each and prints at least one line per doctor |
| Croll.DoctorsReportStopsAtFailure | croll.py:77-82 | once one doctor's `get_schedule` raises, no later doctor adds anything |
| Croll.DoctorsReportFetches | croll.py:71-82 | at most one request per doctor, exactly one each when the report completes; a malformed month sends no request at all |
| Croll.DepartmentSchedules | croll.py:63-102 | a failed directory call ends the report with nothing; an empty selection prints "not found" and sends no request; otherwise a header with the doctor count, then each selected doctor's section, in directory order, up to the first failure |
| NameOrder.LessIrreflexive | app.py:62 | no name sorts before itself |
| NameOrder.LessTransitive | app.py:62 | name order is transitive |
| NameOrder.LessTotal | app.py:62 | of two different names, one sorts before the other |
| NameOrder.LessAsymmetric | app.py:62 | two names never sort before each other |
| NameOrder.Insert | app.py:62 | inserting adds exactly the new item |
| NameOrder.InsertSorted | app.py:62 | inserting into an ordered sequence keeps it ordered |
| NameOrder.WithKeyInsert | app.py:62 | inserting appends the item after the items that share its key and moves no other key's items |
| NameOrder.SortBy | app.py:62 | `sorted(xs, key=...)` is a permutation of `xs`, ordered by key |
| NameOrder.SortByStable | app.py:62 | the sort is stable: the items of any one key keep their input order |
| NameOrder.SortedUnique | app.py:62 | two ordered sequences that are permutations of each other and agree on each key's items are equal, so every stable sort gives this result |
| Aggregation.FirstIndex | app.py:52-58 | the position of the first doctor with a given code or name |
| Aggregation.FirstSeenMembers | app.py:46-60 | the dict key order lists each code (or name) of the directory exactly once |
| Aggregation.FirstSeenOrder | app.py:46-60 | the keys appear in order of their first doctor |
| Aggregation.DeptEntries | app.py:46-59 | `dept_set.values()` has one entry per code, in first-seen order, each being that code's department entry |
| Aggregation.DeptListOf | app.py:62 | `sorted(dept_set.values(), key=deptNm)` is ordered by name and has one entry per distinct code |
| Aggregation.DeptListSpec | app.py:46-62 | the department list is ordered by name; it has one entry per distinct code, with that code's first doctor's name and EMR code and the number of doctors with that code; entries of equal name keep first-seen order |
| Aggregation.RefreshedCacheSpec | app.py:66-102 | a refresh writes an entry for exactly the directory's names, each with the one shared range and one record per doctor of that name in directory order; every other entry is untouched |
| Aggregation.RecordOf | app.py:75-90 | a doctor's record carries its name and id, its title or "" when absent, and the fetched schedule, or `[]` when the fetch raised |
| Aggregation.Records | app.py:73-90 | one record per doctor, in the doctors' order, each with that doctor's name and id |
| Aggregation.WrittenEntries | app.py:98-102 | writing a list of names keeps every other entry and gives each written name an entry over the given range |
| Aggregation.WrittenEntriesSnoc | app.py:98-102 | writing one more department's entry is one map update |
| Aggregation.FailedFetchKeepsDoctor | app.py:80-90 | a doctor whose fetch raises is kept, with an empty schedule and its title defaulting to "" |
| Aggregation.GroupsCoverDirectory | app.py:69 | the name groups together hold every directory doctor once (`total == len(_doctors)`) |
| Aggregation.ScanDirectory | app.py:46-60 | the loop fills `dept_set` with each code's entry and `dept_doctors_map` with each name's doctors, both keyed in first-seen order |
| Aggregation.DeptSetStep | app.py:52-59 | one doctor's pass keeps `dept_set` matching the directory read so far |
| Aggregation.DeptOrderStep | app.py:52-58 | one doctor's pass adds its code to the key order exactly when it is new |
| Aggregation.DeptKeysStep | app.py:52-58 | after one doctor's pass, `dept_set`'s keys are the codes seen so far |
| Aggregation.DeptEntriesStep | app.py:52-59 | after one doctor's pass, every `dept_set` entry equals the entry for the directory read so far |
| Aggregation.DeptEntrySnoc | app.py:52-59 | one more doctor raises its own code's count by one and sets a new code's name and EMR code from itself |
| Aggregation.GroupsStep | app.py:60 | one doctor's `setdefault(...).append` keeps every group equal to the filter over the directory read so far |
| Aggregation.FetchDepartment | app.py:73-90 | one record per doctor, in order, with its name, id, title ("" when absent) and the fetched schedule, or no schedule when the fetch raised |
| App.ShiftMonth | app.py:21-29 | the month `delta` months away is in 1..12 and has year*12+month equal to the starting one plus `delta` |
| App.MonthCountUnique | app.py:21-29 | a year and a month in 1..12 are fixed by year*12+month |
| App.RangeStart | app.py:21-32 | the start of the range ends in day `01`, and its month field reads back as the month three months back |
| App.RangeEnd | app.py:26-33 | the end of the range ends in two month digits and two day digits that read back as the month three months ahead and that month's last day |
| App.CalcRange | app.py:16-34 | the two loops reach the month three back and the month three ahead; the start is that earlier month's 1st (ending in `01`), the end that later month's last day |
| App.RangeFields | app.py:16-34 | both ends are eight digits; the start reads back as day 1 of a month in 1..12 with `sy*12+sm == year*12+month-3`, the end as the last day of a month with `ey*12+em == year*12+month+3` |
| App.RangeOfJanuary | app.py:21-24 | January 2025 gives `20241001` to `20250430` |
| App.RangeOfDecember | app.py:26-29 | December 2024 gives `20240901` to `20250331` |
| App.RangeIntoLeapFebruary | app.py:31-33 | November 2023 ends the range on `20240229` |
| App.NextRefreshDelay | app.py:112-114 | the wait is between 60 and 86400 seconds and ends at 05:00 today when the clock is before 05:00, else at 05:00 tomorrow |
| App.FallbackUnreachable | app.py:113-114 | the formula's result is never 0, so the 86400 fallback is never taken |
| App.NextRefreshIsEarliest | app.py:111-114 | no shorter positive wait reaches 05:00: the wait ends at the next 05:00 after the current minute |
| App.DelayExamples | app.py:112-114 | 05:00 waits a full day; 04:59 waits one minute; 23:30 waits 5.5 hours |
| App.DeptSetValues | app.py:62 | the values of `dept_set` in its key order are the department entries |
| App.SharedNameList | app.py:46-62 | two codes that share a name get two list entries, one count each |
| App.SharedNameCache | app.py:60-102 | the same two codes get one cache entry, holding both doctors |
| App.TwoDepartmentEntries | app.py:46-59 | two cardiologists and a neurologist give the entries Cardiology (count 2) and Neurology (count 1) |
| App.TwoDepartmentList | app.py:62 | sorted by name, that list is Cardiology then Neurology |
| App.TwoDepartmentGroups | app.py:60 | the name groups of that directory are Cardiology then Neurology, and Cardiology holds its two doctors in directory order |
| App.TwoDepartmentCacheKeys | app.py:72-102 | a refresh over that directory writes exactly the Cardiology and Neurology entries |
| App.TwoDepartmentCache | app.py:72-102 | Cardiology's cache entry holds its two doctors in directory order |
| App.AppState.constructor | app.py:10-13 | the process starts with empty caches and `_loading` true (app.py:150) |
| App.AppState.Departments | app.py:131-133 | `/api/departments` returns the list ordered by name, one entry per directory code, each with its first name, EMR code and doctor count |
| App.AppState.Schedules | app.py:136-146 | a missing or empty `dept` is a 400 with the error text; a cached name returns its entry; any other name returns empty doctors and an empty range; a non-empty name of the current directory always has its entry |
| App.AppState.Status | app.py:161-163 | `/api/status` reports the loading flag and the number of distinct department codes |
| App.AppState.PreloadAll | app.py:37-104 | a failed directory call changes nothing; otherwise the directory and department list are replaced first, and then the cache gets one entry per name over this refresh's range, with other entries kept and the loading flag untouched |
| App.AppState.WriteSchedules | app.py:72-102 | the loop writes the names' entries one at a time, in key order, and touches nothing else |
| App.AppState.BackgroundInit | app.py:153-158 | after a successful first preload the loading flag is false; after a failed one nothing has changed and the flag is still up |
| App.AppState.DailyRefreshStep | app.py:109-123 | one loop pass waits `NextRefreshDelay`, then either refreshes as a preload does or, on failure, leaves the state as it was |
| App.StatusAcrossStartup | app.py:150-163 | a fresh server reports loading with no departments; after start-up it reports loading exactly when the first preload failed, and otherwise one department per distinct code |

## Left out

- HTTP requests to the upstream service (croll.py:16-27, 43-45, 58-60) are not modelled. Their outcome is a parameter, and any raised error, whether network, status or JSON, is one failure value.
- `get_all_doctors` itself is left out for the same reason. Its result is the `DirectoryOutcome` parameter.
- The Flask app is left out: `render_template`, `jsonify`, the index page, reading `PORT` and `__main__`. Only the values the handlers return are modelled.
- `threading.Thread` and the daemon thread are left out. Every method runs atomically, so a request that lands between two steps of a preload is not modelled. The loop invariant of `App.AppState.WriteSchedules` describes the states such a request could see.
- The endless `while True` of `daily_refresh` is modelled as one pass, `App.AppState.DailyRefreshStep`.
- `time.sleep` is left out, both the 0.2 s pacing between doctors and the wait before a refresh. Time is an input.
- `print` output, including the `loaded`/`total` progress counters, is left out. The report of `get_department_schedules` is modelled as a list of line values, not as text.
- `App.AppState.DailyRefreshStep`: the clock at wake-up (`after`) is a second, free input. It is not derived from the clock before the wait plus the delay, because that would need date arithmetic across days.
- `App.NextRefreshDelay`: `tm_sec` does not enter the source's formula, so the real wake-up is up to 59 seconds after 05:00. The model states the wait relative to the start of the current minute.
- `Dates.ParseDecimal`: Python's `int()` also accepts surrounding whitespace, a sign, `_` separators and non-ASCII digits. The model accepts only ASCII digits, so for such texts it reports an error where Python would not.
- Upstream records are assumed well formed. A missing `doctorDept`, `deptNm`, `deptCd`, `emrDeptCd`, `empId`, `drName` or `mdcrYmd` key raises `KeyError` in the source and is not modelled. Values are modelled as strings, and the optional `hptlJobTitle`, `amSttsDvsnCd` and `pmSttsDvsnCd` as `Option`.
- The schedule request is a function of its parameters, so two identical requests in one refresh get the same outcome. That happens for a doctor listed twice with the same `empId` and `emrDeptCd`. The source sends two independent requests, and one could fail while the other succeeds.
- Extra JSON fields of the upstream schedule entries are not modelled. The source passes them through unchanged.
- `calendar.monthrange` is taken to follow the Gregorian rule for every year. It never raises for the years that arise here.
