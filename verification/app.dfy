/** The server's state and its refresh cycle: the three caches and the loading
    flag, the ±3-month schedule range taken from the local clock, the full
    preload, the wait until the next 05:00, and the three JSON handlers. */
module App {
  import opened Wrappers
  import opened Dates
  import opened Croll
  import opened NameOrder
  import opened Aggregation

  /** The fields of `time.localtime()` the refresh code reads. */
  datatype Clock = Clock(year: int, month: int, hour: int, minute: int)

  /** The ranges `time.localtime()` keeps its fields in. */
  predicate ValidClock(now: Clock) {
    1 <= now.month <= 12 && 0 <= now.hour < 24 && 0 <= now.minute < 60
  }

  datatype YearMonth = YearMonth(year: int, month: int)

  /** The calendar month `delta` months away from `month` of `year`. */
  function ShiftMonth(year: int, month: int, delta: int): (r: YearMonth)
    ensures 1 <= r.month <= 12
    ensures r.year * 12 + r.month == year * 12 + month + delta
  {
    var t := year * 12 + month - 1 + delta;
    YearMonth(t / 12, t % 12 + 1)
  }

  /** A year and a month in 1..12 are determined by their month count. */
  lemma MonthCountUnique(y1: int, m1: int, y2: int, m2: int)
    requires 1 <= m1 <= 12 && 1 <= m2 <= 12
    requires y1 * 12 + m1 == y2 * 12 + m2
    ensures y1 == y2 && m1 == m2
  {
    var k := y2 - y1;
    assert m1 - m2 == 12 * k;
  }

  /** The first day of the month three months before `now`, as `YYYYMMDD`. */
  function RangeStart(now: Clock): (start: string)
    requires 1 <= now.month <= 12
    ensures |start| >= 5 && start[|start| - 2..] == "01"
    ensures var s := ShiftMonth(now.year, now.month, -3);
      ParseDecimal(start[|start| - 4..|start| - 2]) == Some(s.month)
  {
    var s := ShiftMonth(now.year, now.month, -3);
    assert Pad2(1) == "01";
    ParsePad2(s.month);
    var r := YmdString(s.year, s.month, 1);
    assert r[|r| - 4..|r| - 2] == Pad2(s.month);
    r
  }

  /** The last day of the month three months after `now`, as `YYYYMMDD`. */
  function RangeEnd(now: Clock): (end: string)
    requires 1 <= now.month <= 12
    ensures |end| >= 5
    ensures var e := ShiftMonth(now.year, now.month, 3);
      ParseDecimal(end[|end| - 4..|end| - 2]) == Some(e.month) &&
      ParseDecimal(end[|end| - 2..]) == Some(DaysInMonth(e.year, e.month))
  {
    var e := ShiftMonth(now.year, now.month, 3);
    var last := DaysInMonth(e.year, e.month);
    ParsePad2(e.month);
    ParsePad2(last);
    var r := YmdString(e.year, e.month, last);
    assert r[|r| - 4..|r| - 2] == Pad2(e.month);
    assert r[|r| - 2..] == Pad2(last);
    r
  }

  /** `calc_range_from_now`: step the month back and forward by three with the
      year carried by the two loops, then spell out both dates. */
  method CalcRange(now: Clock) returns (start: string, end: string)
    requires 1 <= now.month <= 12
    ensures start == RangeStart(now) && end == RangeEnd(now)
    ensures |start| >= 4 && start[|start| - 2..] == "01"
  {
    var year, month := now.year, now.month;

    var sy, sm := year, month - 3;
    while sm < 1
      invariant sy * 12 + sm == year * 12 + month - 3
      invariant -2 <= sm <= 12
    {
      sm := sm + 12;
      sy := sy - 1;
    }

    var ey, em := year, month + 3;
    while em > 12
      invariant ey * 12 + em == year * 12 + month + 3
      invariant 1 <= em <= 15
    {
      em := em - 12;
      ey := ey + 1;
    }

    var s, e := ShiftMonth(year, month, -3), ShiftMonth(year, month, 3);
    MonthCountUnique(sy, sm, s.year, s.month);
    MonthCountUnique(ey, em, e.year, e.month);
    var lastDay := DaysInMonth(ey, em);
    assert Pad2(1) == "01";
    start := IntString(sy) + Pad2(sm) + "01";
    end := IntString(ey) + Pad2(em) + Pad2(lastDay);
  }

  /** For a year with four-digit neighbours, both ends of the range are eight
      digits: the start reads back as the 1st of the month three months earlier,
      the end as the last day of the month three months later. */
  lemma RangeFields(now: Clock)
    requires 1 <= now.month <= 12 && 1001 <= now.year <= 9998
    ensures var start, s := RangeStart(now), ShiftMonth(now.year, now.month, -3);
      |start| == 8 &&
      ParseDecimal(start[..4]) == Some(s.year) &&
      ParseDecimal(start[4..6]) == Some(s.month) &&
      start[6..] == "01" &&
      s.year * 12 + s.month == now.year * 12 + now.month - 3
    ensures var end, e := RangeEnd(now), ShiftMonth(now.year, now.month, 3);
      |end| == 8 &&
      ParseDecimal(end[..4]) == Some(e.year) &&
      ParseDecimal(end[4..6]) == Some(e.month) &&
      ParseDecimal(end[6..]) == Some(DaysInMonth(e.year, e.month)) &&
      e.year * 12 + e.month == now.year * 12 + now.month + 3
  {
    var s, e := ShiftMonth(now.year, now.month, -3), ShiftMonth(now.year, now.month, 3);
    assert now.year - 1 <= s.year <= now.year by {
      var k := now.year - s.year;
      assert 12 * k == s.month - now.month + 3;
    }
    assert now.year <= e.year <= now.year + 1 by {
      var k := e.year - now.year;
      assert 12 * k == now.month + 3 - e.month;
    }
    YmdFields(s.year, s.month, 1);
    YmdFields(e.year, e.month, DaysInMonth(e.year, e.month));
    assert Pad2(1) == "01";
    FourDigits(s.year);
    assert RangeStart(now)[6..] == Pad2(1);
  }

  lemma YearSpellings()
    ensures DecimalString(2023) == "2023" && DecimalString(2024) == "2024" && DecimalString(2025) == "2025"
  {
    assert DecimalString(2) == "2";
    assert DecimalString(20) == "20";
    assert DecimalString(202) == "202";
  }

  /** January reaches back to October of the year before. */
  lemma RangeOfJanuary()
    ensures RangeStart(Clock(2025, 1, 9, 0)) == "20241001" && RangeEnd(Clock(2025, 1, 9, 0)) == "20250430"
  {
    YearSpellings();
    assert ShiftMonth(2025, 1, -3) == YearMonth(2024, 10);
    assert ShiftMonth(2025, 1, 3) == YearMonth(2025, 4);
  }

  /** December reaches forward to March of the year after. */
  lemma RangeOfDecember()
    ensures RangeStart(Clock(2024, 12, 9, 0)) == "20240901" && RangeEnd(Clock(2024, 12, 9, 0)) == "20250331"
  {
    YearSpellings();
    assert ShiftMonth(2024, 12, -3) == YearMonth(2024, 9);
    assert ShiftMonth(2024, 12, 3) == YearMonth(2025, 3);
  }

  /** A range ending in February of a leap year ends on the 29th. */
  lemma RangeIntoLeapFebruary()
    ensures RangeEnd(Clock(2023, 11, 9, 0)) == "20240229"
  {
    YearSpellings();
    assert ShiftMonth(2023, 11, 3) == YearMonth(2024, 2);
  }

  /** The raw wait of `daily_refresh`, before its fallback for zero: whole hours
      to the hour before 05:00 plus the minutes left in the current hour. */
  function RawDelay(hour: int, minute: int): int {
    ((5 - hour - 1) % 24) * 3600 + (60 - minute) * 60
  }

  /** Seconds `daily_refresh` sleeps when woken at `hour`:`minute`. */
  function NextRefreshDelay(hour: int, minute: int): (d: int)
    requires 0 <= hour < 24 && 0 <= minute < 60
    ensures 60 <= d <= 86400
    ensures hour * 3600 + minute * 60 + d == 5 * 3600 + (if hour < 5 then 0 else 86400)
    ensures (hour * 3600 + minute * 60 + d) % 86400 == 5 * 3600
  {
    var seconds := RawDelay(hour, minute);
    if seconds == 0 then 86400 else seconds
  }

  /** The fallback for a zero wait is never taken: the raw wait is at least a minute. */
  lemma FallbackUnreachable(hour: int, minute: int)
    requires 0 <= hour < 24 && 0 <= minute < 60
    ensures RawDelay(hour, minute) >= 60
    ensures NextRefreshDelay(hour, minute) == RawDelay(hour, minute)
  {
    if hour < 5 {
      assert (5 - hour - 1) % 24 == 4 - hour;
    } else {
      assert (5 - hour - 1) % 24 == 28 - hour;
    }
  }

  /** The wait ends at the first 05:00 strictly after the current minute: no
      shorter positive wait lands on 05:00. */
  lemma NextRefreshIsEarliest(hour: int, minute: int, w: int)
    requires 0 <= hour < 24 && 0 <= minute < 60
    requires 0 < w < NextRefreshDelay(hour, minute)
    ensures (hour * 3600 + minute * 60 + w) % 86400 != 5 * 3600
  {
    var t := hour * 3600 + minute * 60 + w;
    if t < 86400 {
      assert t % 86400 == t;
    } else {
      assert t % 86400 == t - 86400;
    }
  }

  lemma DelayExamples()
    ensures NextRefreshDelay(5, 0) == 86400
    ensures NextRefreshDelay(4, 59) == 60
    ensures NextRefreshDelay(23, 30) == 5 * 3600 + 30 * 60
    ensures NextRefreshDelay(0, 0) == 5 * 3600
  {
  }

  /** The body of the `/api/schedules` response. */
  datatype SchedulesResponse =
    | BadRequest(status: nat, error: string)
    | Found(snapshot: Snapshot)

  /** The body of the `/api/status` response. */
  datatype StatusResponse = StatusResponse(loading: bool, depts: nat)

  const MissingDept := "dept 파라미터 필요"

  /** The values of `dept_set`, in its key order, are the department entries
      of the directory. */
  lemma DeptSetValues(dir: seq<Doctor>, deptSet: map<string, Department>, deptOrder: seq<string>, values: seq<Department>)
    requires deptOrder == FirstSeen(dir, CodeOf)
    requires forall code :: code in deptSet ==> HasKey(dir, CodeOf, code) && deptSet[code] == DeptEntry(dir, code)
    requires forall code :: code in deptSet <==> HasKey(dir, CodeOf, code)
    requires |values| == |deptOrder| && forall k :: 0 <= k < |values| ==> deptOrder[k] in deptSet && values[k] == deptSet[deptOrder[k]]
    ensures values == DeptEntries(dir)
  {
    FirstSeenMembers(dir, CodeOf);
  }

  /** Two doctors of two department codes that share one name. */
  const SharedNameDirectory := [
    Doctor("100", "Kim", None, DoctorDept("C1", "Surgery", "E1")),
    Doctor("200", "Lee", Some("Professor"), DoctorDept("C2", "Surgery", "E2"))
  ]

  /** The department list is keyed by code: two codes that share a name give
      two entries, each counting its own doctor, in order of appearance. */
  lemma SharedNameList()
    ensures DeptListOf(SharedNameDirectory) ==
      [Department("C1", "Surgery", "E1", 1), Department("C2", "Surgery", "E2", 1)]
  {
    var dir := SharedNameDirectory;
    var a, b := dir[0], dir[1];
    assert dir[..1] == [a];
    assert FirstSeen([a], CodeOf) == ["C1"];
    assert FirstSeen(dir, CodeOf) == ["C1", "C2"];
    assert HasKey(dir, CodeOf, "C1") && HasKey(dir, CodeOf, "C2");
    assert FirstIndex(dir, CodeOf, "C2") == 1 by {
      assert dir[1..] == [b];
    }
    assert CountCode([a], "C1") == 1 && CountCode([a], "C2") == 0;
    var entries := DeptEntries(dir);
    assert entries == [Department("C1", "Surgery", "E1", 1), Department("C2", "Surgery", "E2", 1)];
    assert entries[..1] == [entries[0]];
    assert SortBy([entries[0]], DeptName) == [entries[0]];
    LessIrreflexive("Surgery");
  }

  /** The cache is keyed by name: the same two codes give one entry, holding
      both doctors. */
  lemma SharedNameCache(fetch: Inquiry -> FetchOutcome, startYmd: string, endYmd: string)
    ensures var cache := RefreshedCache(map[], SharedNameDirectory, fetch, startYmd, endYmd);
      cache.Keys == {"Surgery"} && |cache["Surgery"].doctors| == 2
  {
    var dir := SharedNameDirectory;
    assert dir[..1] == [dir[0]];
    assert FirstSeen([dir[0]], NameOf) == ["Surgery"];
    assert FirstSeen(dir, NameOf) == ["Surgery"];
    assert dir[1..] == [dir[1]];
    assert SelectDept(dir, "Surgery") == dir;
  }

  /** Two cardiologists (code C1) around one neurologist (code N1). */
  const TwoDepartmentDirectory := [
    Doctor("11", "Park", Some("Professor"), DoctorDept("C1", "Cardiology", "CA")),
    Doctor("12", "Choi", None, DoctorDept("N1", "Neurology", "NE")),
    Doctor("13", "Jung", None, DoctorDept("C1", "Cardiology", "CA"))
  ]

  /** The department entries of that directory, in order of first appearance. */
  lemma TwoDepartmentEntries()
    ensures DeptEntries(TwoDepartmentDirectory) ==
      [Department("C1", "Cardiology", "CA", 2), Department("N1", "Neurology", "NE", 1)]
  {
    var dir := TwoDepartmentDirectory;
    assert dir[..1] == [dir[0]] && dir[..2] == [dir[0], dir[1]];
    assert FirstSeen(dir, CodeOf) == ["C1", "N1"] by {
      assert FirstSeen([dir[0]], CodeOf) == ["C1"];
      assert FirstSeen([dir[0], dir[1]], CodeOf) == ["C1", "N1"];
    }
    assert HasKey(dir, CodeOf, "C1") && HasKey(dir, CodeOf, "N1");
    assert FirstIndex(dir, CodeOf, "N1") == 1 by {
      assert dir[1..][0] == dir[1];
    }
    assert CountCode(dir, "C1") == 2 by {
      assert CountCode([dir[0]], "C1") == 1;
      assert CountCode([dir[0], dir[1]], "C1") == 1;
    }
    assert CountCode(dir, "N1") == 1 by {
      assert CountCode([dir[0]], "N1") == 0;
      assert CountCode([dir[0], dir[1]], "N1") == 1;
    }
  }

  /** The department list of that directory: Cardiology counted twice, then Neurology. */
  lemma TwoDepartmentList()
    ensures DeptListOf(TwoDepartmentDirectory) ==
      [Department("C1", "Cardiology", "CA", 2), Department("N1", "Neurology", "NE", 1)]
  {
    var entries := DeptEntries(TwoDepartmentDirectory);
    TwoDepartmentEntries();
    assert entries[..1] == [entries[0]];
    assert Less("Cardiology", "Neurology");
    LessAsymmetric("Cardiology", "Neurology");
  }

  /** The department names of that directory, in order of first appearance,
      and the Cardiology group. */
  lemma TwoDepartmentGroups()
    ensures FirstSeen(TwoDepartmentDirectory, NameOf) == ["Cardiology", "Neurology"]
    ensures SelectDept(TwoDepartmentDirectory, "Cardiology") == [TwoDepartmentDirectory[0], TwoDepartmentDirectory[2]]
  {
    var dir := TwoDepartmentDirectory;
    assert dir[..1] == [dir[0]] && dir[..2] == [dir[0], dir[1]];
    assert FirstSeen([dir[0]], NameOf) == ["Cardiology"];
    assert FirstSeen([dir[0], dir[1]], NameOf) == ["Cardiology", "Neurology"];
    assert SelectDept([dir[0]], "Cardiology") == [dir[0]];
    assert SelectDept([dir[0], dir[1]], "Cardiology") == [dir[0]];
  }

  /** A refresh over that directory writes one cache entry per department name. */
  lemma TwoDepartmentCacheKeys(fetch: Inquiry -> FetchOutcome, startYmd: string, endYmd: string)
    ensures RefreshedCache(map[], TwoDepartmentDirectory, fetch, startYmd, endYmd).Keys == {"Cardiology", "Neurology"}
  {
    TwoDepartmentGroups();
    var cache := RefreshedCache(map[], TwoDepartmentDirectory, fetch, startYmd, endYmd);
    assert forall name :: name in cache <==> name == "Cardiology" || name == "Neurology";
  }

  /** After a refresh, Cardiology's entry holds its two doctors in directory
      order, each with whatever the fetch returned over the refresh's range. */
  lemma TwoDepartmentCache(fetch: Inquiry -> FetchOutcome, startYmd: string, endYmd: string)
    ensures var dir := TwoDepartmentDirectory;
      RefreshedCache(map[], dir, fetch, startYmd, endYmd)["Cardiology"] ==
      Snapshot([RecordOf(dir[0], fetch, startYmd, endYmd), RecordOf(dir[2], fetch, startYmd, endYmd)], startYmd, endYmd)
  {
    var dir := TwoDepartmentDirectory;
    TwoDepartmentGroups();
    var docs := [dir[0], dir[2]];
    assert Records(docs, fetch, startYmd, endYmd) == [RecordOf(dir[0], fetch, startYmd, endYmd), RecordOf(dir[2], fetch, startYmd, endYmd)];
  }

  /** The three module globals and the loading flag of the server process. */
  class AppState {
    var doctors: seq<Doctor>
    var deptList: seq<Department>
    var scheduleCache: map<string, Snapshot>
    var loading: bool

    /** The department list is the one built from the current directory, and
        every department name of the directory has a cache entry. */
    ghost predicate Valid()
      reads this
    {
      deptList == DeptListOf(doctors) &&
      forall name :: HasKey(doctors, NameOf, name) ==> name in scheduleCache
    }

    /** The state at import time: all empty, still loading. */
    constructor ()
      ensures doctors == [] && deptList == [] && scheduleCache == map[] && loading
      ensures Valid()
    {
      doctors, deptList, scheduleCache, loading := [], [], map[], true;
    }

    /** `/api/departments`: the list, ordered by name, one entry per code of the
        directory carrying that code's first name and EMR code and its doctor count. */
    function Departments(): (r: seq<Department>)
      reads this
      requires Valid()
      ensures SortedBy(r, DeptName)
      ensures forall code :: HasKey(doctors, CodeOf, code) <==> exists i :: 0 <= i < |r| && r[i].deptCd == code
      ensures forall i, j :: 0 <= i < j < |r| ==> r[i].deptCd != r[j].deptCd
      ensures forall i :: 0 <= i < |r| ==>
        HasKey(doctors, CodeOf, r[i].deptCd) && r[i] == DeptEntry(doctors, r[i].deptCd) &&
        r[i].count == CountCode(doctors, r[i].deptCd)
    {
      DeptListSpec(doctors);
      deptList
    }

    /** `/api/schedules?dept=…`: a missing or empty name is a 400 error; a cached
        name gives its entry; any other name gives an empty entry. A department
        name of the current directory always has its cached entry. */
    function Schedules(dept: Option<string>): (r: SchedulesResponse)
      reads this
      ensures (dept == None || dept == Some("")) <==> r.BadRequest?
      ensures r.BadRequest? ==> r == BadRequest(400, MissingDept)
      ensures forall name :: dept == Some(name) && name != "" && name in scheduleCache ==> r == Found(scheduleCache[name])
      ensures forall name :: dept == Some(name) && name != "" && name !in scheduleCache ==> r == Found(Snapshot([], "", ""))
      ensures Valid() && dept.Some? && dept.value != "" && HasKey(doctors, NameOf, dept.value) ==> r == Found(scheduleCache[dept.value])
    {
      var name := dept.GetOr("");
      if name == "" then BadRequest(400, MissingDept)
      else if name in scheduleCache then Found(scheduleCache[name])
      else Found(Snapshot([], "", ""))
    }

    /** `/api/status`: the loading flag and the number of departments, which is
        the number of distinct department codes of the directory. */
    function Status(): (r: StatusResponse)
      reads this
      requires Valid()
      ensures r.loading == loading
      ensures r.depts == |FirstSeen(doctors, CodeOf)|
    {
      var entries := DeptEntries(doctors);
      assert |multiset(deptList)| == |multiset(entries)|;
      StatusResponse(loading, |deptList|)
    }

    /** `preload_all`: fetch the directory, rebuild the department list, then
        fetch every doctor's schedule over the current range and write the cache
        one department name at a time. A failed directory fetch raises before
        anything is assigned. */
    method PreloadAll(directory: DirectoryOutcome, fetch: Inquiry -> FetchOutcome, now: Clock) returns (ok: bool)
      requires Valid() && 1 <= now.month <= 12
      modifies this
      ensures Valid() && loading == old(loading)
      ensures ok == directory.Directory?
      ensures !ok ==> unchanged(this)
      ensures ok ==>
        doctors == directory.doctors && deptList == DeptListOf(doctors) &&
        scheduleCache == RefreshedCache(old(scheduleCache), doctors, fetch, RangeStart(now), RangeEnd(now))
    {
      if directory.DirectoryFailed? {
        return false;
      }
      ok := true;
      doctors := directory.doctors;
      var dir := doctors;

      var deptSet, deptOrder, groups, nameOrder := ScanDirectory(dir);
      FirstSeenMembers(dir, CodeOf);
      FirstSeenMembers(dir, NameOf);
      var values := seq(|deptOrder|, k requires 0 <= k < |deptOrder| && deptOrder[k] in deptSet => deptSet[deptOrder[k]]);
      DeptSetValues(dir, deptSet, deptOrder, values);
      deptList := SortBy(values, DeptName);

      var start, end := CalcRange(now);
      WriteSchedules(dir, nameOrder, groups, fetch, start, end);
    }

    /** The loop of `preload_all` over `dept_doctors_map`: fetch each name's
        doctors and write that name's entry, one name after the other. */
    method WriteSchedules(dir: seq<Doctor>, nameOrder: seq<string>, groups: map<string, seq<Doctor>>,
                          fetch: Inquiry -> FetchOutcome, start: string, end: string)
      requires forall name :: name in nameOrder ==> name in groups && groups[name] == SelectDept(dir, name)
      modifies this
      ensures scheduleCache == WrittenEntries(old(scheduleCache), dir, nameOrder, fetch, start, end)
      ensures doctors == old(doctors) && deptList == old(deptList) && loading == old(loading)
    {
      ghost var cache0 := scheduleCache;
      var j := 0;
      while j < |nameOrder|
        invariant j <= |nameOrder|
        invariant doctors == old(doctors) && deptList == old(deptList) && loading == old(loading)
        invariant scheduleCache == WrittenEntries(cache0, dir, nameOrder[..j], fetch, start, end)
      {
        var name := nameOrder[j];
        var results := FetchDepartment(groups[name], fetch, start, end);
        WrittenEntriesSnoc(cache0, dir, nameOrder[..j], name, fetch, start, end);
        assert nameOrder[..j + 1] == nameOrder[..j] + [name];
        scheduleCache := scheduleCache[name := Snapshot(results, start, end)];
        j := j + 1;
      }
      assert nameOrder[..j] == nameOrder;
    }

    /** `background_init` up to its refresh loop: one preload, after which the
        loading flag goes down. A failed first preload is not caught, so the
        flag then stays up and the refresh loop never starts. */
    method BackgroundInit(directory: DirectoryOutcome, fetch: Inquiry -> FetchOutcome, now: Clock) returns (ok: bool)
      requires Valid() && 1 <= now.month <= 12
      modifies this
      ensures Valid()
      ensures ok == directory.Directory?
      ensures !ok ==> unchanged(this)
      ensures ok ==>
        !loading && doctors == directory.doctors && deptList == DeptListOf(doctors) &&
        scheduleCache == RefreshedCache(old(scheduleCache), doctors, fetch, RangeStart(now), RangeEnd(now))
    {
      ok := PreloadAll(directory, fetch, now);
      if ok {
        loading := false;
      }
    }

    /** One pass of the `daily_refresh` loop: the wait computed at `before`, then
        a preload at `after` whose failure is caught and leaves the state as it was. */
    method DailyRefreshStep(before: Clock, after: Clock, directory: DirectoryOutcome, fetch: Inquiry -> FetchOutcome)
      returns (delay: int, ok: bool)
      requires Valid() && ValidClock(before) && 1 <= after.month <= 12
      modifies this
      ensures delay == NextRefreshDelay(before.hour, before.minute)
      ensures Valid() && loading == old(loading)
      ensures ok == directory.Directory?
      ensures !ok ==> unchanged(this)
      ensures ok ==>
        doctors == directory.doctors && deptList == DeptListOf(doctors) &&
        scheduleCache == RefreshedCache(old(scheduleCache), doctors, fetch, RangeStart(after), RangeEnd(after))
    {
      delay := NextRefreshDelay(before.hour, before.minute);
      ok := PreloadAll(directory, fetch, after);
    }
  }

  /** A fresh server reports loading with no departments; after the first
      preload it reports loading exactly when that preload failed, and otherwise
      one department per distinct code of the directory. */
  method StatusAcrossStartup(directory: DirectoryOutcome, fetch: Inquiry -> FetchOutcome, now: Clock)
    returns (initial: StatusResponse, afterInit: StatusResponse)
    requires 1 <= now.month <= 12
    ensures initial == StatusResponse(true, 0)
    ensures afterInit.loading <==> directory.DirectoryFailed?
    ensures directory.DirectoryFailed? ==> afterInit.depts == 0
    ensures directory.Directory? ==> afterInit.depts == |FirstSeen(directory.doctors, CodeOf)|
  {
    var state := new AppState();
    initial := state.Status();
    var _ := state.BackgroundInit(directory, fetch, now);
    afterInit := state.Status();
  }
}
