/** The value-level work of `preload_all`: the department list (deduplicated by
    code, counted, sorted by name) and the per-name grouping of the directory,
    the per-doctor schedule records, and the cache entries one refresh writes. */
module Aggregation {
  import opened Wrappers
  import opened Croll
  import opened NameOrder

  /** One element of `_dept_list`. */
  datatype Department = Department(deptCd: string, deptNm: string, emrDeptCd: string, count: nat)

  /** One element of a cached department's `doctors`. */
  datatype DoctorSchedule = DoctorSchedule(name: string, title: string, empId: string, schedule: seq<ScheduleEntry>)

  /** One value of `_schedule_cache`. */
  datatype Snapshot = Snapshot(doctors: seq<DoctorSchedule>, rangeStart: string, rangeEnd: string)

  function DeptName(d: Department): string {
    d.deptNm
  }

  function CodeOf(d: Doctor): string {
    d.doctorDept.deptCd
  }

  function NameOf(d: Doctor): string {
    d.doctorDept.deptNm
  }

  predicate Distinct<T(==)>(s: seq<T>) {
    forall i, j :: 0 <= i < j < |s| ==> s[i] != s[j]
  }

  /** Some doctor of `dir` has `key` value `k`. */
  predicate HasKey(dir: seq<Doctor>, key: Doctor -> string, k: string) {
    exists i :: 0 <= i < |dir| && key(dir[i]) == k
  }

  /** The position of the first doctor of `dir` whose `key` value is `k`. */
  function FirstIndex(dir: seq<Doctor>, key: Doctor -> string, k: string): (i: nat)
    requires HasKey(dir, key, k)
    ensures i < |dir| && key(dir[i]) == k
    ensures forall j :: 0 <= j < i ==> key(dir[j]) != k
  {
    if key(dir[0]) == k then 0
    else
      HasKeyTail(dir, key, k);
      1 + FirstIndex(dir[1..], key, k)
  }

  lemma HasKeyTail(dir: seq<Doctor>, key: Doctor -> string, k: string)
    requires HasKey(dir, key, k) && key(dir[0]) != k
    ensures HasKey(dir[1..], key, k)
  {
    var i :| 0 <= i < |dir| && key(dir[i]) == k;
    assert dir[1..][i - 1] == dir[i];
  }

  /** The distinct `key` values of `dir`, in order of first appearance: the key
      order of a Python dict filled while walking the directory. */
  function FirstSeen(dir: seq<Doctor>, key: Doctor -> string): seq<string> {
    if dir == [] then []
    else
      var p := FirstSeen(dir[..|dir| - 1], key);
      var k := key(dir[|dir| - 1]);
      if k in p then p else p + [k]
  }

  lemma HasKeySnoc(dir: seq<Doctor>, key: Doctor -> string, i: nat, k: string)
    requires i < |dir|
    ensures HasKey(dir[..i + 1], key, k) <==> HasKey(dir[..i], key, k) || key(dir[i]) == k
  {
    if HasKey(dir[..i + 1], key, k) && key(dir[i]) != k {
      var j :| 0 <= j < i + 1 && key(dir[..i + 1][j]) == k;
      assert dir[..i][j] == dir[j];
    }
    if HasKey(dir[..i], key, k) {
      var j :| 0 <= j < i && key(dir[..i][j]) == k;
      assert dir[..i + 1][j] == dir[j];
    }
    if key(dir[i]) == k {
      assert dir[..i + 1][i] == dir[i];
    }
  }

  /** `FirstSeen` lists each key of the directory exactly once. */
  lemma {:induction false} FirstSeenMembers(dir: seq<Doctor>, key: Doctor -> string)
    ensures Distinct(FirstSeen(dir, key))
    ensures forall k :: k in FirstSeen(dir, key) <==> HasKey(dir, key, k)
  {
    if dir != [] {
      var n := |dir| - 1;
      FirstSeenMembers(dir[..n], key);
      assert dir[..n + 1] == dir;
      forall k
        ensures HasKey(dir, key, k) <==> HasKey(dir[..n], key, k) || key(dir[n]) == k
      {
        HasKeySnoc(dir, key, n, k);
      }
    }
  }

  /** `FirstSeen` lists the keys in order of their first appearance. */
  lemma {:induction false} FirstSeenOrder(dir: seq<Doctor>, key: Doctor -> string)
    ensures forall k :: k in FirstSeen(dir, key) ==> HasKey(dir, key, k)
    ensures forall i, j :: 0 <= i < j < |FirstSeen(dir, key)| ==>
      FirstIndex(dir, key, FirstSeen(dir, key)[i]) < FirstIndex(dir, key, FirstSeen(dir, key)[j])
  {
    FirstSeenMembers(dir, key);
    if dir != [] {
      var n := |dir| - 1;
      var p := dir[..n];
      FirstSeenOrder(p, key);
      FirstSeenMembers(p, key);
      assert dir[..n + 1] == dir;
      forall k | HasKey(p, key, k)
        ensures FirstIndex(dir, key, k) == FirstIndex(p, key, k)
      {
        HasKeySnoc(dir, key, n, k);
        FirstIndexSnoc(dir, key, n, k);
      }
      if key(dir[n]) !in FirstSeen(p, key) {
        FirstIndexSnoc(dir, key, n, key(dir[n]));
      }
    }
  }

  /** Extending the directory does not move the first position of a key already present. */
  lemma FirstIndexSnoc(dir: seq<Doctor>, key: Doctor -> string, i: nat, k: string)
    requires i < |dir| && HasKey(dir[..i + 1], key, k)
    ensures HasKey(dir[..i], key, k) ==> FirstIndex(dir[..i + 1], key, k) == FirstIndex(dir[..i], key, k)
    ensures !HasKey(dir[..i], key, k) ==> FirstIndex(dir[..i + 1], key, k) == i
  {
    assert forall j :: 0 <= j <= i ==> dir[..i + 1][j] == dir[j];
    assert forall j :: 0 <= j < i ==> dir[..i][j] == dir[j];
    var a := FirstIndex(dir[..i + 1], key, k);
    if HasKey(dir[..i], key, k) {
      var b := FirstIndex(dir[..i], key, k);
    }
  }

  /** The number of doctors of `dir` with department code `code`. */
  function CountCode(dir: seq<Doctor>, code: string): nat {
    if dir == [] then 0
    else CountCode(dir[..|dir| - 1], code) + (if CodeOf(dir[|dir| - 1]) == code then 1 else 0)
  }

  /** The department-list entry for `code`: the name and EMR code of the first
      doctor with that code, and the number of doctors with it. */
  function DeptEntry(dir: seq<Doctor>, code: string): Department
    requires HasKey(dir, CodeOf, code)
  {
    var first := dir[FirstIndex(dir, CodeOf, code)];
    Department(code, first.doctorDept.deptNm, first.doctorDept.emrDeptCd, CountCode(dir, code))
  }

  /** The entries of `dept_set.values()`: one per code, in order of first appearance. */
  function DeptEntries(dir: seq<Doctor>): (r: seq<Department>)
    ensures |r| == |FirstSeen(dir, CodeOf)|
    ensures forall k :: 0 <= k < |r| ==>
      HasKey(dir, CodeOf, FirstSeen(dir, CodeOf)[k]) && r[k] == DeptEntry(dir, FirstSeen(dir, CodeOf)[k])
  {
    var codes := FirstSeen(dir, CodeOf);
    FirstSeenMembers(dir, CodeOf);
    seq(|codes|, k requires 0 <= k < |codes| => DeptEntry(dir, codes[k]))
  }

  /** `_dept_list`: the entries sorted by department name. */
  function DeptListOf(dir: seq<Doctor>): (r: seq<Department>)
    ensures |r| == |FirstSeen(dir, CodeOf)|
    ensures SortedBy(r, DeptName)
  {
    var entries := DeptEntries(dir);
    assert |multiset(SortBy(entries, DeptName))| == |multiset(entries)|;
    SortBy(entries, DeptName)
  }

  lemma MultiplicityOfRepeat<T>(s: seq<T>, i: nat, j: nat)
    requires i < j < |s| && s[i] == s[j]
    ensures multiset(s)[s[i]] >= 2
  {
    assert s == s[..i] + [s[i]] + s[i + 1..j] + [s[j]] + s[j + 1..];
  }

  lemma {:induction false} MultiplicityOfDistinct<T>(s: seq<T>, x: T)
    requires Distinct(s)
    ensures multiset(s)[x] <= 1
  {
    if s != [] {
      var p, last := s[..|s| - 1], s[|s| - 1];
      assert s == p + [last];
      MultiplicityOfDistinct(p, x);
      forall k | 0 <= k < |p|
        ensures p[k] != last
      {
        assert s[k] == p[k];
      }
      assert last !in p;
    }
  }

  /** The department list has one entry per distinct code of the directory, each
      with the first such doctor's name and EMR code and the number of doctors
      with that code; it is ordered by name, and entries of equal name keep the
      order in which their codes first appear. */
  lemma DeptListSpec(dir: seq<Doctor>)
    ensures var list := DeptListOf(dir);
      SortedBy(list, DeptName) &&
      (forall code :: HasKey(dir, CodeOf, code) <==> exists i :: 0 <= i < |list| && list[i].deptCd == code) &&
      (forall i, j :: 0 <= i < j < |list| ==> list[i].deptCd != list[j].deptCd) &&
      (forall i :: 0 <= i < |list| ==> HasKey(dir, CodeOf, list[i].deptCd) && list[i] == DeptEntry(dir, list[i].deptCd)) &&
      (forall name :: WithKey(list, DeptName, name) == WithKey(DeptEntries(dir), DeptName, name))
  {
    var list, entries, codes := DeptListOf(dir), DeptEntries(dir), FirstSeen(dir, CodeOf);
    FirstSeenMembers(dir, CodeOf);
    assert multiset(list) == multiset(entries);
    forall x
      ensures x in list <==> x in entries
    {
      assert x in list <==> x in multiset(list);
      assert x in entries <==> x in multiset(entries);
    }
    forall i | 0 <= i < |list|
      ensures HasKey(dir, CodeOf, list[i].deptCd) && list[i] == DeptEntry(dir, list[i].deptCd)
    {
      assert list[i] in entries;
    }
    forall code | HasKey(dir, CodeOf, code)
      ensures exists i :: 0 <= i < |list| && list[i].deptCd == code
    {
      var k :| 0 <= k < |codes| && codes[k] == code;
      assert entries[k] in list;
    }
    assert Distinct(entries) by {
      forall i, j | 0 <= i < j < |entries|
        ensures entries[i] != entries[j]
      {
        assert entries[i].deptCd == codes[i] && entries[j].deptCd == codes[j];
      }
    }
    forall i, j | 0 <= i < j < |list|
      ensures list[i].deptCd != list[j].deptCd
    {
      if list[i].deptCd == list[j].deptCd {
        MultiplicityOfRepeat(list, i, j);
        MultiplicityOfDistinct(entries, list[i]);
      }
    }
    forall name
      ensures WithKey(list, DeptName, name) == WithKey(entries, DeptName, name)
    {
      SortByStable(entries, DeptName, name);
    }
  }

  /** The record `preload_all` stores for one doctor: its name, its title ("" when
      absent) and its id, with the fetched schedule, or no schedule when the
      fetch raised. */
  function RecordOf(d: Doctor, fetch: Inquiry -> FetchOutcome, startYmd: string, endYmd: string): (r: DoctorSchedule)
    ensures r.name == d.drName && r.empId == d.empId
    ensures d.hptlJobTitle.Some? ==> r.title == d.hptlJobTitle.value
    ensures d.hptlJobTitle.None? ==> r.title == ""
    ensures var q := RangeInquiry(d.empId, d.doctorDept.emrDeptCd, startYmd, endYmd);
      (fetch(q).FetchFailed? ==> r.schedule == []) && (fetch(q).Fetched? ==> r.schedule == fetch(q).entries)
  {
    var schedule :=
      match fetch(RangeInquiry(d.empId, d.doctorDept.emrDeptCd, startYmd, endYmd))
      case Fetched(entries) => entries
      case FetchFailed => [];
    DoctorSchedule(d.drName, d.hptlJobTitle.GetOr(""), d.empId, schedule)
  }

  /** One record per doctor, in the doctors' order. */
  function Records(docs: seq<Doctor>, fetch: Inquiry -> FetchOutcome, startYmd: string, endYmd: string): (r: seq<DoctorSchedule>)
    ensures |r| == |docs|
    ensures forall k :: 0 <= k < |r| ==> r[k].name == docs[k].drName && r[k].empId == docs[k].empId
  {
    seq(|docs|, k requires 0 <= k < |docs| => RecordOf(docs[k], fetch, startYmd, endYmd))
  }

  /** The cache entry written for department name `name`. */
  function SnapshotFor(dir: seq<Doctor>, name: string, fetch: Inquiry -> FetchOutcome, startYmd: string, endYmd: string): Snapshot {
    Snapshot(Records(SelectDept(dir, name), fetch, startYmd, endYmd), startYmd, endYmd)
  }

  /** `_schedule_cache` with the entries for `names` written over it. */
  function WrittenEntries(cache: map<string, Snapshot>, dir: seq<Doctor>, names: seq<string>,
                          fetch: Inquiry -> FetchOutcome, startYmd: string, endYmd: string): (r: map<string, Snapshot>)
    ensures forall name :: name in r <==> name in cache || name in names
    ensures forall name :: name in cache && name !in names ==> r[name] == cache[name]
    ensures forall name :: name in names ==> r[name].rangeStart == startYmd && r[name].rangeEnd == endYmd
  {
    cache + map name | name in names :: SnapshotFor(dir, name, fetch, startYmd, endYmd)
  }

  /** Writing one more name's entry is one more map update. */
  lemma WrittenEntriesSnoc(cache: map<string, Snapshot>, dir: seq<Doctor>, names: seq<string>, name: string,
                           fetch: Inquiry -> FetchOutcome, startYmd: string, endYmd: string)
    ensures WrittenEntries(cache, dir, names + [name], fetch, startYmd, endYmd) ==
      WrittenEntries(cache, dir, names, fetch, startYmd, endYmd)[name := SnapshotFor(dir, name, fetch, startYmd, endYmd)]
  {
    var a := WrittenEntries(cache, dir, names + [name], fetch, startYmd, endYmd);
    var b := WrittenEntries(cache, dir, names, fetch, startYmd, endYmd)[name := SnapshotFor(dir, name, fetch, startYmd, endYmd)];
    assert forall k :: k in names + [name] <==> k in names || k == name;
    assert a.Keys == b.Keys;
  }

  /** `_schedule_cache` after one refresh over `dir`: one fresh entry per
      department name of the directory, every other entry as it was. */
  function RefreshedCache(cache: map<string, Snapshot>, dir: seq<Doctor>, fetch: Inquiry -> FetchOutcome, startYmd: string, endYmd: string): map<string, Snapshot> {
    WrittenEntries(cache, dir, FirstSeen(dir, NameOf), fetch, startYmd, endYmd)
  }

  /** A refresh writes an entry for exactly the names in the directory, each
      holding the range of that refresh and one record per doctor of that name,
      in directory order, and leaves every other entry untouched. */
  lemma RefreshedCacheSpec(cache: map<string, Snapshot>, dir: seq<Doctor>, fetch: Inquiry -> FetchOutcome, startYmd: string, endYmd: string)
    ensures var r := RefreshedCache(cache, dir, fetch, startYmd, endYmd);
      (forall name :: name in r <==> name in cache || HasKey(dir, NameOf, name)) &&
      (forall name :: !HasKey(dir, NameOf, name) && name in cache ==> r[name] == cache[name]) &&
      (forall name :: HasKey(dir, NameOf, name) ==>
        r[name].rangeStart == startYmd && r[name].rangeEnd == endYmd &&
        |r[name].doctors| == |SelectDept(dir, name)| &&
        forall k :: 0 <= k < |r[name].doctors| ==>
          var d := SelectDept(dir, name)[k];
          NameOf(d) == name && r[name].doctors[k] == RecordOf(d, fetch, startYmd, endYmd))
  {
    FirstSeenMembers(dir, NameOf);
    forall name | HasKey(dir, NameOf, name)
      ensures forall k :: 0 <= k < |SelectDept(dir, name)| ==> NameOf(SelectDept(dir, name)[k]) == name
    {
      SelectDeptMembers(dir, name);
      forall k | 0 <= k < |SelectDept(dir, name)|
        ensures NameOf(SelectDept(dir, name)[k]) == name
      {
        assert SelectDept(dir, name)[k] in SelectDept(dir, name);
      }
    }
  }

  /** A doctor whose schedule fetch fails is still listed, with an empty schedule. */
  lemma FailedFetchKeepsDoctor(d: Doctor, fetch: Inquiry -> FetchOutcome, startYmd: string, endYmd: string)
    requires fetch(RangeInquiry(d.empId, d.doctorDept.emrDeptCd, startYmd, endYmd)).FetchFailed?
    ensures RecordOf(d, fetch, startYmd, endYmd) == DoctorSchedule(d.drName, d.hptlJobTitle.GetOr(""), d.empId, [])
  {
  }

  /** The doctors of all the cached departments together are the directory:
      the group sizes add up to the directory's length. */
  function GroupTotal(dir: seq<Doctor>, names: seq<string>): nat {
    if names == [] then 0 else |SelectDept(dir, names[0])| + GroupTotal(dir, names[1..])
  }

  lemma {:induction false} GroupTotalSnoc(p: seq<Doctor>, d: Doctor, names: seq<string>)
    requires Distinct(names)
    ensures GroupTotal(p + [d], names) == GroupTotal(p, names) + (if NameOf(d) in names then 1 else 0)
  {
    if names != [] {
      assert (p + [d])[..|p|] == p;
      GroupTotalSnoc(p, d, names[1..]);
      assert NameOf(d) in names <==> NameOf(d) == names[0] || NameOf(d) in names[1..];
    }
  }

  lemma {:induction false} GroupTotalAppend(dir: seq<Doctor>, names: seq<string>, name: string)
    ensures GroupTotal(dir, names + [name]) == GroupTotal(dir, names) + |SelectDept(dir, name)|
  {
    if names != [] {
      assert (names + [name])[1..] == names[1..] + [name];
      GroupTotalAppend(dir, names[1..], name);
    }
  }

  /** Every doctor of the directory lands in exactly one name group. */
  lemma {:induction false} GroupsCoverDirectory(dir: seq<Doctor>)
    ensures GroupTotal(dir, FirstSeen(dir, NameOf)) == |dir|
  {
    if dir != [] {
      var p, d := dir[..|dir| - 1], dir[|dir| - 1];
      assert dir == p + [d];
      var names := FirstSeen(p, NameOf);
      GroupsCoverDirectory(p);
      FirstSeenMembers(p, NameOf);
      GroupTotalSnoc(p, d, names);
      if NameOf(d) !in names {
        GroupTotalAppend(dir, names, NameOf(d));
        SelectDeptAbsent(p, NameOf(d));
      }
    }
  }

  /** A key absent from a directory is absent from each of its prefixes. */
  lemma NoKeyInPrefix(dir: seq<Doctor>, key: Doctor -> string, k: string, n: nat)
    requires n <= |dir| && !HasKey(dir, key, k)
    ensures !HasKey(dir[..n], key, k)
  {
    forall j | 0 <= j < n
      ensures key(dir[..n][j]) != k
    {
      assert dir[..n][j] == dir[j];
    }
  }

  lemma {:induction false} SelectDeptAbsent(dir: seq<Doctor>, name: string)
    requires !HasKey(dir, NameOf, name)
    ensures SelectDept(dir, name) == []
  {
    if dir != [] {
      NoKeyInPrefix(dir, NameOf, name, |dir| - 1);
      SelectDeptAbsent(dir[..|dir| - 1], name);
    }
  }

  /** `dept_set` with its key order matches the directory `dir`: one entry per
      code, in order of first appearance, each equal to `DeptEntry`. */
  ghost predicate DeptSetMatches(deptSet: map<string, Department>, deptOrder: seq<string>, dir: seq<Doctor>) {
    deptOrder == FirstSeen(dir, CodeOf) &&
    (forall code :: code in deptSet <==> HasKey(dir, CodeOf, code)) &&
    (forall code :: code in deptSet ==> HasKey(dir, CodeOf, code) && deptSet[code] == DeptEntry(dir, code))
  }

  /** `dept_doctors_map` with its key order matches the directory `dir`. */
  ghost predicate GroupsMatch(groups: map<string, seq<Doctor>>, nameOrder: seq<string>, dir: seq<Doctor>) {
    nameOrder == FirstSeen(dir, NameOf) &&
    (forall name :: name in groups <==> HasKey(dir, NameOf, name)) &&
    (forall name :: name in groups ==> groups[name] == SelectDept(dir, name))
  }

  /** The loop of `preload_all` over the directory: fill `dept_set` (code ->
      entry, counting) and `dept_doctors_map` (name -> doctors), both in order of
      first appearance. */
  method ScanDirectory(dir: seq<Doctor>)
    returns (deptSet: map<string, Department>, deptOrder: seq<string>,
             groups: map<string, seq<Doctor>>, nameOrder: seq<string>)
    ensures deptOrder == FirstSeen(dir, CodeOf) && nameOrder == FirstSeen(dir, NameOf)
    ensures forall code :: code in deptSet <==> HasKey(dir, CodeOf, code)
    ensures forall code :: code in deptSet ==> HasKey(dir, CodeOf, code) && deptSet[code] == DeptEntry(dir, code)
    ensures forall name :: name in groups <==> HasKey(dir, NameOf, name)
    ensures forall name :: name in groups ==> groups[name] == SelectDept(dir, name)
  {
    deptSet, deptOrder, groups, nameOrder := map[], [], map[], [];
    var i := 0;
    while i < |dir|
      invariant i <= |dir|
      invariant DeptSetMatches(deptSet, deptOrder, dir[..i])
      invariant GroupsMatch(groups, nameOrder, dir[..i])
    {
      var d := dir[i];
      var nm, code := d.doctorDept.deptNm, d.doctorDept.deptCd;
      ghost var deptSet0, deptOrder0, groups0, nameOrder0 := deptSet, deptOrder, groups, nameOrder;
      if code !in deptSet {
        deptSet := deptSet[code := Department(code, nm, d.doctorDept.emrDeptCd, 0)];
        deptOrder := deptOrder + [code];
      }
      deptSet := deptSet[code := deptSet[code].(count := deptSet[code].count + 1)];
      assert DeptSetStepped(d, deptSet0, deptOrder0, deptSet, deptOrder);
      DeptSetStep(dir, i, deptSet0, deptOrder0, deptSet, deptOrder);
      if nm !in groups {
        groups := groups[nm := []];
        nameOrder := nameOrder + [nm];
      }
      groups := groups[nm := groups[nm] + [d]];
      GroupsStep(dir, i, groups0, nameOrder0, groups, nameOrder);
      i := i + 1;
    }
    assert dir[..i] == dir;
  }

  /** The `dept_set` and its key order after one more doctor's pass: a new code
      is appended with a count of one, a known code has its count raised by one. */
  ghost predicate DeptSetStepped(d: Doctor, deptSet: map<string, Department>, deptOrder: seq<string>,
                                 deptSet': map<string, Department>, deptOrder': seq<string>) {
    var code := CodeOf(d);
    if code in deptSet then
      deptOrder' == deptOrder && deptSet' == deptSet[code := deptSet[code].(count := deptSet[code].count + 1)]
    else
      deptOrder' == deptOrder + [code] &&
      deptSet' == deptSet[code := Department(code, NameOf(d), d.doctorDept.emrDeptCd, 1)]
  }

  /** One doctor's pass through the `dept_set` part of the loop keeps it matching. */
  lemma DeptSetStep(dir: seq<Doctor>, i: nat, deptSet: map<string, Department>, deptOrder: seq<string>,
                    deptSet': map<string, Department>, deptOrder': seq<string>)
    requires i < |dir| && DeptSetMatches(deptSet, deptOrder, dir[..i])
    requires DeptSetStepped(dir[i], deptSet, deptOrder, deptSet', deptOrder')
    ensures DeptSetMatches(deptSet', deptOrder', dir[..i + 1])
  {
    DeptOrderStep(dir, i, deptSet, deptOrder, deptSet', deptOrder');
    DeptKeysStep(dir, i, deptSet, deptOrder, deptSet', deptOrder');
    DeptEntriesStep(dir, i, deptSet, deptOrder, deptSet', deptOrder');
  }

  lemma DeptOrderStep(dir: seq<Doctor>, i: nat, deptSet: map<string, Department>, deptOrder: seq<string>,
                      deptSet': map<string, Department>, deptOrder': seq<string>)
    requires i < |dir| && DeptSetMatches(deptSet, deptOrder, dir[..i])
    requires DeptSetStepped(dir[i], deptSet, deptOrder, deptSet', deptOrder')
    ensures deptOrder' == FirstSeen(dir[..i + 1], CodeOf)
  {
    var d, p, q := dir[i], dir[..i], dir[..i + 1];
    var code := CodeOf(d);
    assert q[..i] == p && q[i] == d && |q| == i + 1;
    FirstSeenMembers(p, CodeOf);
    assert FirstSeen(q, CodeOf) == if code in FirstSeen(p, CodeOf) then FirstSeen(p, CodeOf) else FirstSeen(p, CodeOf) + [code];
  }

  lemma DeptKeysStep(dir: seq<Doctor>, i: nat, deptSet: map<string, Department>, deptOrder: seq<string>,
                     deptSet': map<string, Department>, deptOrder': seq<string>)
    requires i < |dir| && DeptSetMatches(deptSet, deptOrder, dir[..i])
    requires DeptSetStepped(dir[i], deptSet, deptOrder, deptSet', deptOrder')
    ensures forall k :: k in deptSet' <==> HasKey(dir[..i + 1], CodeOf, k)
  {
    forall k
      ensures k in deptSet' <==> HasKey(dir[..i + 1], CodeOf, k)
    {
      HasKeySnoc(dir, CodeOf, i, k);
    }
  }

  lemma DeptEntriesStep(dir: seq<Doctor>, i: nat, deptSet: map<string, Department>, deptOrder: seq<string>,
                        deptSet': map<string, Department>, deptOrder': seq<string>)
    requires i < |dir| && DeptSetMatches(deptSet, deptOrder, dir[..i])
    requires DeptSetStepped(dir[i], deptSet, deptOrder, deptSet', deptOrder')
    ensures forall k :: k in deptSet' ==> HasKey(dir[..i + 1], CodeOf, k) && deptSet'[k] == DeptEntry(dir[..i + 1], k)
  {
    var code := CodeOf(dir[i]);
    forall k | k in deptSet'
      ensures HasKey(dir[..i + 1], CodeOf, k) && deptSet'[k] == DeptEntry(dir[..i + 1], k)
    {
      HasKeySnoc(dir, CodeOf, i, k);
      DeptEntrySnoc(dir, i, k);
      if k != code {
        assert deptSet'[k] == deptSet[k];
      }
    }
  }

  /** How one more doctor changes the department-list entry of a code. */
  lemma DeptEntrySnoc(dir: seq<Doctor>, i: nat, code: string)
    requires i < |dir| && (HasKey(dir[..i], CodeOf, code) || CodeOf(dir[i]) == code)
    ensures HasKey(dir[..i + 1], CodeOf, code)
    ensures HasKey(dir[..i], CodeOf, code) ==>
      DeptEntry(dir[..i + 1], code) ==
      DeptEntry(dir[..i], code).(count := DeptEntry(dir[..i], code).count + (if CodeOf(dir[i]) == code then 1 else 0))
    ensures !HasKey(dir[..i], CodeOf, code) ==>
      DeptEntry(dir[..i + 1], code) == Department(code, NameOf(dir[i]), dir[i].doctorDept.emrDeptCd, 1)
  {
    var p, q := dir[..i], dir[..i + 1];
    assert q[..i] == p && q[i] == dir[i] && |q| == i + 1;
    HasKeySnoc(dir, CodeOf, i, code);
    FirstIndexSnoc(dir, CodeOf, i, code);
    assert CountCode(q, code) == CountCode(p, code) + (if CodeOf(dir[i]) == code then 1 else 0);
    if !HasKey(p, CodeOf, code) {
      CountAbsent(p, code);
    }
  }

  /** One doctor's pass through the `dept_doctors_map` part of the loop keeps it matching. */
  lemma GroupsStep(dir: seq<Doctor>, i: nat, groups: map<string, seq<Doctor>>, nameOrder: seq<string>,
                   groups': map<string, seq<Doctor>>, nameOrder': seq<string>)
    requires i < |dir| && GroupsMatch(groups, nameOrder, dir[..i])
    requires var name := NameOf(dir[i]);
      var base := if name in groups then groups else groups[name := []];
      groups' == base[name := base[name] + [dir[i]]] &&
      nameOrder' == if name in groups then nameOrder else nameOrder + [name]
    ensures GroupsMatch(groups', nameOrder', dir[..i + 1])
  {
    var d, p, q := dir[i], dir[..i], dir[..i + 1];
    var name := NameOf(d);
    assert q[..i] == p && q[i] == d && |q| == i + 1;
    FirstSeenMembers(p, NameOf);
    assert FirstSeen(q, NameOf) == if name in FirstSeen(p, NameOf) then FirstSeen(p, NameOf) else FirstSeen(p, NameOf) + [name];
    forall k
      ensures HasKey(q, NameOf, k) <==> HasKey(p, NameOf, k) || name == k
    {
      HasKeySnoc(dir, NameOf, i, k);
    }
    if !HasKey(p, NameOf, name) {
      SelectDeptAbsent(p, name);
    }
    forall k | k in groups'
      ensures groups'[k] == SelectDept(q, k)
    {
      assert SelectDept(q, k) == SelectDept(p, k) + (if name == k then [d] else []);
    }
  }

  lemma {:induction false} CountAbsent(dir: seq<Doctor>, code: string)
    requires !HasKey(dir, CodeOf, code)
    ensures CountCode(dir, code) == 0
  {
    if dir != [] {
      NoKeyInPrefix(dir, CodeOf, code, |dir| - 1);
      CountAbsent(dir[..|dir| - 1], code);
    }
  }

  /** The inner loop of `preload_all` for one department: one record per doctor,
      in order; a failed fetch gives that doctor an empty schedule. */
  method FetchDepartment(docs: seq<Doctor>, fetch: Inquiry -> FetchOutcome, startYmd: string, endYmd: string)
    returns (results: seq<DoctorSchedule>)
    ensures |results| == |docs|
    ensures forall k :: 0 <= k < |docs| ==>
      results[k].name == docs[k].drName && results[k].empId == docs[k].empId &&
      results[k].title == docs[k].hptlJobTitle.GetOr("")
    ensures results == Records(docs, fetch, startYmd, endYmd)
  {
    results := [];
    var j := 0;
    while j < |docs|
      invariant j <= |docs|
      invariant results == Records(docs[..j], fetch, startYmd, endYmd)
    {
      var d := docs[j];
      var schedule: seq<ScheduleEntry>;
      var outcome := fetch(RangeInquiry(d.empId, d.doctorDept.emrDeptCd, startYmd, endYmd));
      if outcome.Fetched? {
        schedule := outcome.entries;
      } else {
        schedule := [];
      }
      results := results + [DoctorSchedule(d.drName, d.hptlJobTitle.GetOr(""), d.empId, schedule)];
      j := j + 1;
    }
    assert docs[..j] == docs;
  }
}
