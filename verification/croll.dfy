/** The upstream client of the hospital API: the records it returns, the inquiry
    parameters of the schedule calls (`get_schedule`, `get_schedule_range`), and
    the console report of one department's month (`get_department_schedules`).
    The HTTP request itself is an oracle `Inquiry -> FetchOutcome`. */
module Croll {
  import opened Wrappers
  import opened Dates

  /** The `hpCd` parameter every schedule call sends. */
  const HospitalCode: string := "GR"

  datatype DoctorDept = DoctorDept(deptCd: string, deptNm: string, emrDeptCd: string)

  /** One directory record; `hptlJobTitle` is a key the upstream may omit. */
  datatype Doctor = Doctor(empId: string, drName: string, hptlJobTitle: Option<string>, doctorDept: DoctorDept)

  /** One day of a doctor's schedule; the two status keys may be absent. */
  datatype ScheduleEntry = ScheduleEntry(mdcrYmd: string, amSttsDvsnCd: Option<string>, pmSttsDvsnCd: Option<string>)

  /** The query parameters of one schedule call. */
  datatype Inquiry = Inquiry(hpCd: string, empId: string, inqrStrtYmd: string, inqrFnshYmd: string, mcdpCd: string)

  /** What one schedule call yields: the decoded entries, or a raised error
      (network failure, non-2xx status, undecodable body). */
  datatype FetchOutcome = Fetched(entries: seq<ScheduleEntry>) | FetchFailed

  /** What the directory call `get_all_doctors` yields. */
  datatype DirectoryOutcome = Directory(doctors: seq<Doctor>) | DirectoryFailed

  /** Why `get_schedule` raises before any request is sent. */
  datatype MonthError = YearNotInteger | MonthNotInteger | IllegalMonth(month: nat)

  /** Python's `s[i:j]` for `0 <= i <= j`: bounds past the end are clamped. */
  function Slice(s: string, i: nat, j: nat): string
    requires i <= j
  {
    if |s| <= i then [] else if |s| <= j then s[i..] else s[i..j]
  }

  /** The parameters `get_schedule_range` sends: the bounds are passed through. */
  function RangeInquiry(empId: string, emrDeptCd: string, startYmd: string, endYmd: string): (q: Inquiry)
    ensures q.hpCd == HospitalCode && q.empId == empId && q.mcdpCd == emrDeptCd
    ensures q.inqrStrtYmd == startYmd && q.inqrFnshYmd == endYmd
  {
    Inquiry(HospitalCode, empId, startYmd, endYmd, emrDeptCd)
  }

  /** The parameters `get_schedule` sends for the month `yearMonth` (`YYYYMM`):
      the year is `int(year_month[:4])`, the month `int(year_month[4:6])`, and
      `calendar.monthrange` rejects a month outside 1..12. */
  function MonthInquiry(empId: string, emrDeptCd: string, yearMonth: string): (r: Result<Inquiry, MonthError>)
    ensures r.Ok? <==>
      ParseDecimal(Slice(yearMonth, 0, 4)).Some? && ParseDecimal(Slice(yearMonth, 4, 6)).Some? &&
      1 <= ParseDecimal(Slice(yearMonth, 4, 6)).value <= 12
    ensures r.Ok? ==>
      r.value.inqrFnshYmd ==
      yearMonth + Pad2(DaysInMonth(ParseDecimal(Slice(yearMonth, 0, 4)).value, ParseDecimal(Slice(yearMonth, 4, 6)).value))
    ensures r.Ok? ==> 5 <= |yearMonth| && AllDigits(yearMonth[..4])
    ensures r.Ok? ==> r.value.hpCd == HospitalCode && r.value.empId == empId && r.value.mcdpCd == emrDeptCd
    ensures r.Ok? ==> r.value.inqrStrtYmd == yearMonth + "01"
    ensures r.Ok? ==>
      var end := r.value.inqrFnshYmd;
      |end| == |yearMonth| + 2 && end[..|yearMonth|] == yearMonth &&
      ParseDecimal(end[|yearMonth|..]).Some? && 28 <= ParseDecimal(end[|yearMonth|..]).value <= 31
  {
    match ParseDecimal(Slice(yearMonth, 0, 4))
    case None => Err(YearNotInteger)
    case Some(year) =>
      match ParseDecimal(Slice(yearMonth, 4, 6))
      case None => Err(MonthNotInteger)
      case Some(month) =>
        if month < 1 || 12 < month then Err(IllegalMonth(month))
        else
          var lastDay := DaysInMonth(year, month);
          ParsePad2(lastDay);
          assert (yearMonth + Pad2(lastDay))[|yearMonth|..] == Pad2(lastDay);
          Ok(RangeInquiry(empId, emrDeptCd, yearMonth + "01", yearMonth + Pad2(lastDay)))
  }

  /** Whether `get_schedule` fails for `yearMonth` does not depend on the doctor. */
  lemma MonthErrorIgnoresDoctor(e1: string, c1: string, e2: string, c2: string, yearMonth: string)
    ensures MonthInquiry(e1, c1, yearMonth).Err? == MonthInquiry(e2, c2, yearMonth).Err?
  {
  }

  /** For a well-formed `YYYYMM`, `get_schedule` is `get_schedule_range` over the
      whole month: from day 01 to the month's last day, 29 for a leap February. */
  lemma MonthInquiryIsRangeInquiry(empId: string, emrDeptCd: string, year: int, month: int)
    requires 1000 <= year <= 9999 && 1 <= month <= 12
    ensures var ym := IntString(year) + Pad2(month);
      var last := DaysInMonth(year, month);
      MonthInquiry(empId, emrDeptCd, ym) == Ok(RangeInquiry(empId, emrDeptCd, ym + "01", ym + Pad2(last))) &&
      RangeInquiry(empId, emrDeptCd, ym + "01", ym + Pad2(last)).inqrStrtYmd == YmdString(year, month, 1) &&
      RangeInquiry(empId, emrDeptCd, ym + "01", ym + Pad2(last)).inqrFnshYmd == YmdString(year, month, last)
  {
    var ym := IntString(year) + Pad2(month);
    FourDigits(year);
    ParseDecimalString(year);
    ParsePad2(month);
    assert Slice(ym, 0, 4) == DecimalString(year);
    assert Slice(ym, 4, 6) == Pad2(month);
    assert Pad2(1) == "01";
  }

  /** The doctors of department `deptName`, in directory order
      (`[d for d in doctors if d["doctorDept"]["deptNm"] == dept_name]`). */
  function SelectDept(doctors: seq<Doctor>, deptName: string): (r: seq<Doctor>)
    ensures |r| <= |doctors|
    ensures forall i :: 0 <= i < |r| ==> r[i].doctorDept.deptNm == deptName
  {
    if doctors == [] then []
    else
      var last := doctors[|doctors| - 1];
      SelectDept(doctors[..|doctors| - 1], deptName) + (if last.doctorDept.deptNm == deptName then [last] else [])
  }

  /** Filtering distributes over concatenation: the selection keeps directory order. */
  lemma {:induction false} SelectDeptAppend(a: seq<Doctor>, b: seq<Doctor>, deptName: string)
    ensures SelectDept(a + b, deptName) == SelectDept(a, deptName) + SelectDept(b, deptName)
  {
    if b != [] {
      var b' := b[..|b| - 1];
      assert (a + b)[..|a + b| - 1] == a + b';
      SelectDeptAppend(a, b', deptName);
    } else {
      assert a + b == a;
    }
  }

  /** The selection holds exactly the doctors of the department. */
  lemma {:induction false} SelectDeptMembers(doctors: seq<Doctor>, deptName: string)
    ensures forall d :: d in SelectDept(doctors, deptName) <==> d in doctors && d.doctorDept.deptNm == deptName
  {
    if doctors != [] {
      var p := doctors[..|doctors| - 1];
      SelectDeptMembers(p, deptName);
      assert doctors == p + [doctors[|doctors| - 1]];
    }
  }

  datatype Label = Morning | Afternoon

  /** What the department report prints, line by line. */
  datatype ReportLine =
    | NotFound                                        // the department has no doctors
    | DeptHeader(deptName: string, doctorCount: nat)  // `===== name (n명) =====`
    | DoctorHeader(drName: string)                    // `▶ name`
    | NoClinic                                        // an empty schedule
    | DateLine(date: string, labels: seq<Label>)      // `date → 오전, 오후`

  /** A report: the lines printed, the schedule requests sent, and whether the
      function returned normally rather than by a raised error. */
  datatype Report = Report(lines: seq<ReportLine>, fetches: nat, completed: bool)

  /** The labels of one entry: morning when `amSttsDvsnCd` is "1", afternoon
      when `pmSttsDvsnCd` is "1", morning first. */
  function Labels(e: ScheduleEntry): (r: seq<Label>)
    ensures Morning in r <==> e.amSttsDvsnCd == Some("1")
    ensures Afternoon in r <==> e.pmSttsDvsnCd == Some("1")
    ensures |r| <= 2 && (|r| == 2 ==> r == [Morning, Afternoon])
  {
    (if e.amSttsDvsnCd == Some("1") then [Morning] else []) +
    (if e.pmSttsDvsnCd == Some("1") then [Afternoon] else [])
  }

  /** The per-entry status list the source builds by appending. */
  method StatusLabels(e: ScheduleEntry) returns (status: seq<Label>)
    ensures status == Labels(e)
  {
    var am := e.amSttsDvsnCd == Some("1");
    var pm := e.pmSttsDvsnCd == Some("1");
    status := [];
    if am {
      status := status + [Morning];
    }
    if pm {
      status := status + [Afternoon];
    }
  }

  /** The dated lines of a schedule: one per entry with at least one label. */
  function DateLines(schedule: seq<ScheduleEntry>): seq<ReportLine> {
    if schedule == [] then []
    else
      var e := schedule[|schedule| - 1];
      DateLines(schedule[..|schedule| - 1]) +
      (if Labels(e) != [] then [DateLine(e.mdcrYmd, Labels(e))] else [])
  }

  /** Every dated line belongs to an entry with a set flag, and there are none
      exactly when no entry has a flag set. */
  lemma {:induction false} DateLinesReportFlaggedEntries(schedule: seq<ScheduleEntry>)
    ensures |DateLines(schedule)| <= |schedule|
    ensures forall l :: l in DateLines(schedule) ==>
      l.DateLine? && l.labels != [] && exists e :: e in schedule && l == DateLine(e.mdcrYmd, Labels(e))
    ensures DateLines(schedule) == [] <==> forall e :: e in schedule ==> Labels(e) == []
  {
    if schedule != [] {
      var p := schedule[..|schedule| - 1];
      var e := schedule[|schedule| - 1];
      DateLinesReportFlaggedEntries(p);
      assert schedule == p + [e];
      forall l | l in DateLines(schedule)
        ensures l.DateLine? && l.labels != [] && exists e' :: e' in schedule && l == DateLine(e'.mdcrYmd, Labels(e'))
      {
        if l in DateLines(p) {
          var e' :| e' in p && l == DateLine(e'.mdcrYmd, Labels(e'));
          assert e' in schedule;
        } else {
          assert l == DateLine(e.mdcrYmd, Labels(e));
        }
      }
    }
  }

  /** The lines for one doctor: the name, then "no clinic" for an empty
      schedule or else the dated lines. */
  function DoctorSection(drName: string, schedule: seq<ScheduleEntry>): (r: seq<ReportLine>)
    ensures |r| >= 1 && r[0] == DoctorHeader(drName)
    ensures NoClinic in r <==> schedule == []
    ensures schedule == [] ==> |r| == 2
  {
    DateLinesReportFlaggedEntries(schedule);
    [DoctorHeader(drName)] + (if schedule == [] then [NoClinic] else DateLines(schedule))
  }

  /** What failed in `get_schedule`: the month text, or the request. */
  datatype ScheduleFailure = BadYearMonth(error: MonthError) | RequestFailed

  /** `get_schedule(emp_id, emr_dept_cd, year_month)` for one doctor. */
  function MonthSchedule(d: Doctor, yearMonth: string, fetch: Inquiry -> FetchOutcome): (r: Result<seq<ScheduleEntry>, ScheduleFailure>)
    ensures var q := MonthInquiry(d.empId, d.doctorDept.emrDeptCd, yearMonth);
      (q.Err? <==> r.Err? && r.error.BadYearMonth?) &&
      (r == Err(RequestFailed) <==> q.Ok? && fetch(q.value).FetchFailed?) &&
      (r.Ok? ==> q.Ok? && fetch(q.value) == Fetched(r.value)) &&
      (q.Ok? && fetch(q.value).Fetched? ==> r == Ok(fetch(q.value).entries))
  {
    match MonthInquiry(d.empId, d.doctorDept.emrDeptCd, yearMonth)
    case Err(e) => Err(BadYearMonth(e))
    case Ok(q) =>
      match fetch(q)
      case Fetched(entries) => Ok(entries)
      case FetchFailed => Err(RequestFailed)
  }

  /** The per-doctor part of the report for `doctors`, in order; the first
      failing `get_schedule` ends it, since the source does not catch it. */
  function DoctorsReport(doctors: seq<Doctor>, yearMonth: string, fetch: Inquiry -> FetchOutcome): (r: Report)
    ensures r.fetches <= |doctors|
    ensures r.completed ==> r.fetches == |doctors| && |r.lines| >= |doctors|
  {
    if doctors == [] then Report([], 0, true)
    else
      var r := DoctorsReport(doctors[..|doctors| - 1], yearMonth, fetch);
      var d := doctors[|doctors| - 1];
      if !r.completed then r
      else match MonthSchedule(d, yearMonth, fetch)
        case Err(BadYearMonth(_)) => Report(r.lines, r.fetches, false)
        case Err(RequestFailed) => Report(r.lines, r.fetches + 1, false)
        case Ok(schedule) => Report(r.lines + DoctorSection(d.drName, schedule), r.fetches + 1, true)
  }

  /** Once a doctor's call has failed, no later doctor changes the report. */
  lemma {:induction false} DoctorsReportStopsAtFailure(doctors: seq<Doctor>, k: nat, yearMonth: string, fetch: Inquiry -> FetchOutcome)
    requires k <= |doctors| && !DoctorsReport(doctors[..k], yearMonth, fetch).completed
    ensures DoctorsReport(doctors, yearMonth, fetch) == DoctorsReport(doctors[..k], yearMonth, fetch)
  {
    if k < |doctors| {
      var p := doctors[..|doctors| - 1];
      assert p[..k] == doctors[..k];
      DoctorsReportStopsAtFailure(p, k, yearMonth, fetch);
    } else {
      assert doctors[..k] == doctors;
    }
  }

  /** A report sends at most one request per doctor, exactly one each when it
      completes; a malformed month sends none at all. */
  lemma {:induction false} DoctorsReportFetches(doctors: seq<Doctor>, yearMonth: string, fetch: Inquiry -> FetchOutcome)
    ensures var r := DoctorsReport(doctors, yearMonth, fetch);
      r.fetches <= |doctors| && (r.completed ==> r.fetches == |doctors|)
    ensures doctors != [] && MonthInquiry("", "", yearMonth).Err? ==>
      DoctorsReport(doctors, yearMonth, fetch) == Report([], 0, false)
  {
    if doctors != [] {
      var p := doctors[..|doctors| - 1];
      var d := doctors[|doctors| - 1];
      DoctorsReportFetches(p, yearMonth, fetch);
      MonthErrorIgnoresDoctor("", "", d.empId, d.doctorDept.emrDeptCd, yearMonth);
    }
  }

  /** The inner loop of the report: one dated line per entry with a set flag. */
  method DatedLines(schedule: seq<ScheduleEntry>) returns (lines: seq<ReportLine>)
    ensures lines == DateLines(schedule)
  {
    lines := [];
    var j := 0;
    while j < |schedule|
      invariant j <= |schedule|
      invariant lines == DateLines(schedule[..j])
    {
      var s := schedule[j];
      assert schedule[..j + 1][..j] == schedule[..j];
      var status := StatusLabels(s);
      if status != [] {
        lines := lines + [DateLine(s.mdcrYmd, status)];
      }
      j := j + 1;
    }
    assert schedule[..j] == schedule;
  }

  /** The lines for one fetched doctor: the name, then "no clinic" for an
      empty schedule or else its dated lines. */
  method ReportDoctor(drName: string, schedule: seq<ScheduleEntry>) returns (lines: seq<ReportLine>)
    ensures lines == DoctorSection(drName, schedule)
  {
    if schedule == [] {
      lines := [DoctorHeader(drName), NoClinic];
    } else {
      var dated := DatedLines(schedule);
      lines := [DoctorHeader(drName)] + dated;
    }
  }

  /** `get_department_schedules(dept_name, year_month)`: select the department's
      doctors; report "not found" when there are none; otherwise, per doctor in
      directory order, fetch the month's schedule and report it. */
  method DepartmentSchedules(deptName: string, yearMonth: string, directory: DirectoryOutcome, fetch: Inquiry -> FetchOutcome)
    returns (report: Report)
    ensures directory.DirectoryFailed? ==> report == Report([], 0, false)
    ensures directory.Directory? && SelectDept(directory.doctors, deptName) == [] ==>
      report == Report([NotFound], 0, true)
    ensures directory.Directory? && SelectDept(directory.doctors, deptName) != [] ==>
      var selected := SelectDept(directory.doctors, deptName);
      var body := DoctorsReport(selected, yearMonth, fetch);
      report == Report([DeptHeader(deptName, |selected|)] + body.lines, body.fetches, body.completed)
  {
    if directory.DirectoryFailed? {
      return Report([], 0, false);
    }
    var deptDoctors := SelectDept(directory.doctors, deptName);
    if deptDoctors == [] {
      return Report([NotFound], 0, true);
    }
    var header := DeptHeader(deptName, |deptDoctors|);
    var body: seq<ReportLine> := [];
    var fetches := 0;
    var k := 0;
    while k < |deptDoctors|
      invariant k <= |deptDoctors|
      invariant DoctorsReport(deptDoctors[..k], yearMonth, fetch) == Report(body, fetches, true)
    {
      var d := deptDoctors[k];
      assert deptDoctors[..k + 1][..k] == deptDoctors[..k];
      var inquiry := MonthInquiry(d.empId, d.doctorDept.emrDeptCd, yearMonth);
      if inquiry.Err? {
        DoctorsReportStopsAtFailure(deptDoctors, k + 1, yearMonth, fetch);
        return Report([header] + body, fetches, false);
      }
      fetches := fetches + 1;
      var outcome := fetch(inquiry.value);
      if outcome.FetchFailed? {
        DoctorsReportStopsAtFailure(deptDoctors, k + 1, yearMonth, fetch);
        return Report([header] + body, fetches, false);
      }
      var section := ReportDoctor(d.drName, outcome.entries);
      body := body + section;
      k := k + 1;
    }
    assert deptDoctors[..k] == deptDoctors;
    return Report([header] + body, fetches, true);
  }
}
