/**
 `GET api/Employees/monthly-attendance`: employees joined to attendance, grouped
 by (employee name, month number), with the presence, absence and off-day
 values summed per group.

 The key holds the month number alone, so January 2022 and January 2023 fall
 into one group, and it holds the employee's name rather than id, so two
 employees with the same name share their groups. The report row keeps the
 month number where the handler prints a locale-dependent month name.
 */
module MonthlyReport {
  import opened Tables

  /** The grouping key: `new { EmployeeName, Month = AttendanceDate.Month }`. */
  datatype GroupKey = GroupKey(employeeName: string, month: Month)

  /** The three summed columns; every sum below is taken one column at a time. */
  datatype Column = Present | Absent | Offday

  /** One line of the report. */
  datatype ReportRow = ReportRow(
    employeeName: string,
    month: Month,
    totalPresent: int,
    totalAbsent: int,
    totalOffday: int)
  {
    function Key(): GroupKey {
      GroupKey(employeeName, month)
    }

    function Total(c: Column): int {
      match c
      case Present => totalPresent
      case Absent => totalAbsent
      case Offday => totalOffday
    }
  }

  /** The value an attendance row holds in column `c`. */
  function Value(a: Attendance, c: Column): int {
    match c
    case Present => a.isPresent
    case Absent => a.isAbsent
    case Offday => a.isOffday
  }

  function KeyOf(j: Joined): GroupKey {
    GroupKey(j.employee.employeeName, j.attendance.attendanceDate.month)
  }

  /** Two joined rows fall into one group exactly when they carry the same
      employee name and the same month number, whatever their years, days
      and employee ids. */
  lemma SameGroupIff(j1: Joined, j2: Joined)
    ensures KeyOf(j1) == KeyOf(j2) <==>
            j1.employee.employeeName == j2.employee.employeeName
            && j1.attendance.attendanceDate.month == j2.attendance.attendanceDate.month
  {
  }

  /** The total of column `c` over every joined row. */
  function SumAll(js: seq<Joined>, c: Column): int {
    if |js| == 0 then 0 else Value(js[0].attendance, c) + SumAll(js[1..], c)
  }

  /** What one group should hold: the total of column `c` over the joined
      rows with key `k`. */
  function GroupSum(js: seq<Joined>, k: GroupKey, c: Column): int {
    if |js| == 0 then 0
    else (if KeyOf(js[0]) == k then Value(js[0].attendance, c) else 0) + GroupSum(js[1..], k, c)
  }

  /** The total of column `c` over the rows of a report. */
  function SumRows(rows: seq<ReportRow>, c: Column): int {
    if |rows| == 0 then 0 else rows[0].Total(c) + SumRows(rows[1..], c)
  }

  function KeysOf(rows: seq<ReportRow>): set<GroupKey> {
    set i | 0 <= i < |rows| :: rows[i].Key()
  }

  /** No two report rows share a key. */
  predicate DistinctKeys(rows: seq<ReportRow>) {
    forall i, j :: 0 <= i < j < |rows| ==> rows[i].Key() != rows[j].Key()
  }

  /** The total the report holds for key `k` in column `c`: that of the first
      row with the key, or zero when there is none. */
  function TotalAt(rows: seq<ReportRow>, k: GroupKey, c: Column): int {
    if |rows| == 0 then 0
    else if rows[0].Key() == k then rows[0].Total(c)
    else TotalAt(rows[1..], k, c)
  }

  /** A fresh group holding one attendance row's values. */
  function NewRow(k: GroupKey, a: Attendance): (row: ReportRow)
    ensures row.Key() == k
    ensures forall c :: row.Total(c) == Value(a, c)
  {
    ReportRow(k.employeeName, k.month, a.isPresent, a.isAbsent, a.isOffday)
  }

  /** `row` with one more attendance row's values added. */
  function AddTo(row: ReportRow, a: Attendance): (r: ReportRow)
    ensures r.Key() == row.Key()
    ensures forall c :: r.Total(c) == row.Total(c) + Value(a, c)
  {
    row.(totalPresent := row.totalPresent + a.isPresent,
         totalAbsent := row.totalAbsent + a.isAbsent,
         totalOffday := row.totalOffday + a.isOffday)
  }

  /** Fold one joined row's values into its group, opening the group if it is new. */
  function AddToGroup(rows: seq<ReportRow>, k: GroupKey, a: Attendance): (r: seq<ReportRow>)
    requires DistinctKeys(rows)
    ensures DistinctKeys(r)
    ensures KeysOf(r) == KeysOf(rows) + {k}
    ensures forall k', c :: TotalAt(r, k', c) == TotalAt(rows, k', c) + (if k' == k then Value(a, c) else 0)
    ensures forall c :: SumRows(r, c) == SumRows(rows, c) + Value(a, c)
  {
    if |rows| == 0 then
      KeysOfCons([NewRow(k, a)]);
      [NewRow(k, a)]
    else if rows[0].Key() == k then
      KeysOfCons(rows);
      KeysOfCons([AddTo(rows[0], a)] + rows[1..]);
      KeyAbsentAfterHead(rows);
      assert ([AddTo(rows[0], a)] + rows[1..])[1..] == rows[1..];
      [AddTo(rows[0], a)] + rows[1..]
    else
      var tail := AddToGroup(rows[1..], k, a);
      KeysOfCons(rows);
      KeysOfCons([rows[0]] + tail);
      assert ([rows[0]] + tail)[1..] == tail;
      assert DistinctKeys([rows[0]] + tail) by {
        forall i | 0 < i < |[rows[0]] + tail|
          ensures ([rows[0]] + tail)[i].Key() != rows[0].Key()
        {
          assert ([rows[0]] + tail)[i] == tail[i - 1];
          assert tail[i - 1].Key() in KeysOf(tail);
          KeyAbsentAfterHead(rows);
        }
      }
      [rows[0]] + tail
  }

  lemma KeysOfCons(rows: seq<ReportRow>)
    requires |rows| > 0
    ensures KeysOf(rows) == {rows[0].Key()} + KeysOf(rows[1..])
  {
    forall k | k in KeysOf(rows)
      ensures k in {rows[0].Key()} + KeysOf(rows[1..])
    {
      var i :| 0 <= i < |rows| && rows[i].Key() == k;
      if i > 0 {
        assert rows[1..][i - 1] == rows[i];
      }
    }
    forall k | k in KeysOf(rows[1..])
      ensures k in KeysOf(rows)
    {
      var i :| 0 <= i < |rows[1..]| && rows[1..][i].Key() == k;
      assert rows[i + 1] == rows[1..][i];
    }
  }

  /** With distinct keys, the first row's key occurs nowhere after it. */
  lemma KeyAbsentAfterHead(rows: seq<ReportRow>)
    requires |rows| > 0 && DistinctKeys(rows)
    ensures rows[0].Key() !in KeysOf(rows[1..])
    ensures DistinctKeys(rows[1..])
  {
  }

  /** `GroupBy` followed by the per-group sums. */
  function GroupByKey(js: seq<Joined>): (r: seq<ReportRow>)
    ensures DistinctKeys(r)
    ensures KeysOf(r) == set j | j in js :: KeyOf(j)
    ensures forall k, c :: TotalAt(r, k, c) == GroupSum(js, k, c)
    ensures forall c :: SumRows(r, c) == SumAll(js, c)
  {
    if |js| == 0 then []
    else
      var rest := GroupByKey(js[1..]);
      JoinedKeysCons(js);
      AddToGroup(rest, KeyOf(js[0]), js[0].attendance)
  }

  lemma JoinedKeysCons(js: seq<Joined>)
    requires |js| > 0
    ensures (set j | j in js :: KeyOf(j)) == {KeyOf(js[0])} + (set j | j in js[1..] :: KeyOf(j))
  {
    assert js == [js[0]] + js[1..];
  }

  /** With distinct keys, a row's totals are the totals the report holds for its key. */
  lemma {:induction false} TotalAtOwnKey(rows: seq<ReportRow>, i: nat, c: Column)
    requires DistinctKeys(rows) && i < |rows|
    ensures TotalAt(rows, rows[i].Key(), c) == rows[i].Total(c)
  {
    if i > 0 {
      assert rows[0].Key() != rows[i].Key();
      assert rows[1..][i - 1] == rows[i];
      KeyAbsentAfterHead(rows);
      TotalAtOwnKey(rows[1..], i - 1, c);
    }
  }

  /** With distinct keys there are as many rows as keys. */
  lemma {:induction false} OneRowPerKey(rows: seq<ReportRow>)
    requires DistinctKeys(rows)
    ensures |KeysOf(rows)| == |rows|
  {
    if |rows| > 0 {
      KeysOfCons(rows);
      KeyAbsentAfterHead(rows);
      OneRowPerKey(rows[1..]);
    }
  }

  /** The handler. One row per (name, month) key found among the joined rows,
      no key twice, each row holding its group's sums, and nothing lost or
      counted twice overall. */
  function GetMonthlyAttendanceReport(emps: seq<Employee>, atts: seq<Attendance>): (r: seq<ReportRow>)
    ensures DistinctKeys(r)
    ensures forall k :: k in KeysOf(r) <==> exists j :: j in Join(emps, atts) && KeyOf(j) == k
    ensures forall i, c :: 0 <= i < |r| ==> r[i].Total(c) == GroupSum(Join(emps, atts), r[i].Key(), c)
    ensures forall c :: SumRows(r, c) == SumAll(Join(emps, atts), c)
  {
    var r := GroupByKey(Join(emps, atts));
    forall i, c | 0 <= i < |r|
      ensures r[i].Total(c) == GroupSum(Join(emps, atts), r[i].Key(), c)
    {
      TotalAtOwnKey(r, i, c);
    }
    r
  }

  /** The total of column `c` over the attendance rows whose `EmployeeId` is in `ids`. */
  function SumMatched(atts: seq<Attendance>, ids: set<int>, c: Column): int {
    if |atts| == 0 then 0
    else (if atts[0].employeeId in ids then Value(atts[0], c) else 0) + SumMatched(atts[1..], ids, c)
  }

  lemma {:induction false} SumAllSplit(a: seq<Joined>, b: seq<Joined>, c: Column)
    ensures SumAll(a + b, c) == SumAll(a, c) + SumAll(b, c)
  {
    if |a| == 0 {
      assert a + b == b;
    } else {
      assert (a + b)[1..] == a[1..] + b;
      SumAllSplit(a[1..], b, c);
    }
  }

  /** One employee row contributes exactly the attendance rows carrying its id. */
  lemma {:induction false} SumJoinOne(e: Employee, atts: seq<Attendance>, c: Column)
    ensures SumAll(JoinOne(e, atts), c) == SumMatched(atts, {e.employeeId}, c)
  {
    if |atts| > 0 {
      var head := if atts[0].employeeId == e.employeeId then [Joined(e, atts[0])] else [];
      SumAllSplit(head, JoinOne(e, atts[1..]), c);
      SumJoinOne(e, atts[1..], c);
    }
  }

  /** Summing over a disjoint union of ids adds the two sums. */
  lemma {:induction false} SumMatchedUnion(atts: seq<Attendance>, id: int, ids: set<int>, c: Column)
    requires id !in ids
    ensures SumMatched(atts, {id} + ids, c) == SumMatched(atts, {id}, c) + SumMatched(atts, ids, c)
  {
    if |atts| > 0 {
      SumMatchedUnion(atts[1..], id, ids, c);
    }
  }

  lemma {:induction false} EmptyIdsMatchNothing(atts: seq<Attendance>, c: Column)
    ensures SumMatched(atts, {}, c) == 0
  {
    if |atts| > 0 {
      EmptyIdsMatchNothing(atts[1..], c);
    }
  }

  /** Under the primary key, each column's total over the join is its total
      over the attendance rows of known employees. */
  lemma {:induction false} JoinConservesTotals(emps: seq<Employee>, atts: seq<Attendance>, c: Column)
    requires IdsUnique(emps)
    ensures SumAll(Join(emps, atts), c) == SumMatched(atts, Ids(emps), c)
  {
    if |emps| == 0 {
      assert Ids(emps) == {};
      EmptyIdsMatchNothing(atts, c);
    } else {
      var rest := emps[1..];
      IdsUniqueTail(emps);
      SumAllSplit(JoinOne(emps[0], atts), Join(rest, atts), c);
      SumJoinOne(emps[0], atts, c);
      JoinConservesTotals(rest, atts, c);
      SumMatchedUnion(atts, emps[0].employeeId, Ids(rest), c);
    }
  }

  /** Across all report rows, each column's total is that of the attendance
      rows belonging to an existing employee; rows of unknown employees vanish. */
  lemma ReportConservesAttendance(emps: seq<Employee>, atts: seq<Attendance>, c: Column)
    requires IdsUnique(emps)
    ensures SumRows(GetMonthlyAttendanceReport(emps, atts), c) == SumMatched(atts, Ids(emps), c)
  {
    JoinConservesTotals(emps, atts, c);
  }

  /** The report has exactly one row per distinct (name, month) pair among
      the joined rows. */
  lemma ReportRowCount(emps: seq<Employee>, atts: seq<Attendance>)
    ensures |GetMonthlyAttendanceReport(emps, atts)| == |set j | j in Join(emps, atts) :: KeyOf(j)|
  {
    var r := GetMonthlyAttendanceReport(emps, atts);
    OneRowPerKey(r);
    assert KeysOf(r) == set j | j in Join(emps, atts) :: KeyOf(j);
  }
}
