/**
 The two tables the employee endpoints work on, `Employees` and
 `EmployeeAttendance`, as immutable rows, together with the inner join on
 `EmployeeId` that the absence listing and the monthly report both start from.
 */
module Tables {

  /** SQL `int` / C# `int`: a 32-bit signed integer. */
  type Int32 = x: int | -0x8000_0000 <= x <= 0x7FFF_FFFF

  /** Largest magnitude of a `decimal(18,2)` value, counted in cents:
      9999999999999999.99 is 999999999999999999 cents. */
  const MaxCents: int := 999_999_999_999_999_999

  /** A `decimal(18,2)` amount held exactly as a whole number of cents. */
  type Cents = c: int | -MaxCents <= c <= MaxCents

  type Month = m: int | 1 <= m <= 12 witness 1

  predicate IsLeapYear(year: int) {
    year % 4 == 0 && (year % 100 != 0 || year % 400 == 0)
  }

  function DaysInMonth(year: int, month: Month): (n: int)
    ensures 28 <= n <= 31
  {
    if month == 2 then (if IsLeapYear(year) then 29 else 28)
    else if month == 4 || month == 6 || month == 9 || month == 11 then 30
    else 31
  }

  /** The calendar part of a `datetime2` value. */
  datatype Date = Date(year: int, month: Month, day: int) {
    predicate Valid() {
      1 <= year <= 9999 && 1 <= day <= DaysInMonth(year, month)
    }
  }

  type CalendarDate = d: Date | d.Valid() witness Date(1, 1, 1)

  /** A row of `Employees`; `employeeId` is its primary key. */
  datatype Employee = Employee(
    employeeId: Int32,
    employeeName: string,
    employeeCode: string,
    employeeSalary: Cents)

  /** A row of `EmployeeAttendance`; `employeeId` refers to an employee,
      but nothing enforces that such an employee exists. */
  datatype Attendance = Attendance(
    attendanceId: Int32,
    employeeId: Int32,
    attendanceDate: CalendarDate,
    isPresent: Int32,
    isAbsent: Int32,
    isOffday: Int32)

  /** The primary-key constraint of `Employees`: no two rows share an id. */
  predicate IdsUnique(emps: seq<Employee>) {
    forall i, j :: 0 <= i < |emps| && 0 <= j < |emps| && i != j ==>
      emps[i].employeeId != emps[j].employeeId
  }

  /** One row of the inner join `Employees JOIN EmployeeAttendance ON EmployeeId`. */
  datatype Joined = Joined(employee: Employee, attendance: Attendance) {
    predicate Matches() {
      employee.employeeId == attendance.employeeId
    }
  }

  /** The join rows contributed by a single employee row. */
  function JoinOne(e: Employee, atts: seq<Attendance>): (r: seq<Joined>)
    ensures |r| <= |atts|
    ensures forall j :: j in r ==> j.employee == e && j.attendance in atts && j.Matches()
  {
    if |atts| == 0 then []
    else (if atts[0].employeeId == e.employeeId then [Joined(e, atts[0])] else []) + JoinOne(e, atts[1..])
  }

  /** `Employees.Join(EmployeeAttendance, e => e.EmployeeId, a => a.EmployeeId, ...)`:
      employee rows outside, attendance rows inside. */
  function Join(emps: seq<Employee>, atts: seq<Attendance>): (r: seq<Joined>)
    ensures forall j :: j in r ==> j.employee in emps && j.attendance in atts && j.Matches()
  {
    if |emps| == 0 then [] else JoinOne(emps[0], atts) + Join(emps[1..], atts)
  }

  /** One employee row is paired with each matching attendance row, as often
      as that row occurs. */
  lemma {:induction false} JoinOneCount(e: Employee, atts: seq<Attendance>, j: Joined)
    ensures multiset(JoinOne(e, atts))[j] ==
            if j.employee == e && j.Matches() then multiset(atts)[j.attendance] else 0
  {
    if |atts| > 0 {
      CountCons(atts, j.attendance);
      JoinOneCount(e, atts[1..], j);
    }
  }

  /** The inner join: a pair of rows with equal `EmployeeId` occurs once for
      each way of picking its employee row and its attendance row, and no
      other pair occurs. */
  lemma {:induction false} JoinCount(emps: seq<Employee>, atts: seq<Attendance>, j: Joined)
    ensures multiset(Join(emps, atts))[j] ==
            if j.Matches() then multiset(emps)[j.employee] * multiset(atts)[j.attendance] else 0
  {
    if |emps| > 0 {
      var first := JoinOne(emps[0], atts);
      var rest := Join(emps[1..], atts);
      assert multiset(Join(emps, atts))[j] == multiset(first)[j] + multiset(rest)[j];
      JoinOneCount(emps[0], atts, j);
      JoinCount(emps[1..], atts, j);
      CountCons(emps, j.employee);
      if j.employee == emps[0] {
        Distribute(multiset(emps[1..])[j.employee], 1, multiset(atts)[j.attendance]);
      }
    }
  }

  /** The primary keys present in the employee table. */
  function Ids(emps: seq<Employee>): set<int> {
    set e | e in emps :: e.employeeId
  }

  /** Under the primary key, the first row's id is new to the rest of the
      table, and the rest keeps the key. */
  lemma IdsUniqueTail(emps: seq<Employee>)
    requires |emps| > 0 && IdsUnique(emps)
    ensures IdsUnique(emps[1..])
    ensures emps[0].employeeId !in Ids(emps[1..])
    ensures Ids(emps) == {emps[0].employeeId} + Ids(emps[1..])
  {
    var rest := emps[1..];
    forall i, j | 0 <= i < |rest| && 0 <= j < |rest| && i != j
      ensures rest[i].employeeId != rest[j].employeeId
    {
      assert rest[i] == emps[i + 1] && rest[j] == emps[j + 1];
    }
    forall e | e in rest
      ensures e.employeeId != emps[0].employeeId
    {
      var i :| 0 <= i < |rest| && rest[i] == e;
      assert emps[i + 1] == e;
    }
    assert emps == [emps[0]] + rest;
  }

  /** The attendance part of each joined row. */
  function AttendancesOf(js: seq<Joined>): (r: seq<Attendance>)
    ensures |r| == |js|
    ensures forall i :: 0 <= i < |js| ==> r[i] == js[i].attendance
  {
    if |js| == 0 then [] else [js[0].attendance] + AttendancesOf(js[1..])
  }

  /** The attendance rows whose `EmployeeId` is in `ids`, in table order. */
  function RowsOf(atts: seq<Attendance>, ids: set<int>): (r: seq<Attendance>)
    ensures |r| <= |atts|
    ensures forall a :: a in r ==> a in atts && a.employeeId in ids
  {
    if |atts| == 0 then []
    else (if atts[0].employeeId in ids then [atts[0]] else []) + RowsOf(atts[1..], ids)
  }

  lemma AttendancesOfSplit(a: seq<Joined>, b: seq<Joined>)
    ensures AttendancesOf(a + b) == AttendancesOf(a) + AttendancesOf(b)
  {
    assert forall i :: 0 <= i < |a + b| ==> AttendancesOf(a + b)[i] == (AttendancesOf(a) + AttendancesOf(b))[i];
  }

  /** One employee row carries exactly the attendance rows with its id, in order. */
  lemma {:induction false} AttendancesOfJoinOne(e: Employee, atts: seq<Attendance>)
    ensures AttendancesOf(JoinOne(e, atts)) == RowsOf(atts, {e.employeeId})
  {
    if |atts| > 0 {
      var head := if atts[0].employeeId == e.employeeId then [Joined(e, atts[0])] else [];
      AttendancesOfSplit(head, JoinOne(e, atts[1..]));
      AttendancesOfJoinOne(e, atts[1..]);
    }
  }

  /** Selecting by a disjoint union of ids selects by each part. */
  lemma {:induction false} RowsOfUnion(atts: seq<Attendance>, id: int, ids: set<int>)
    requires id !in ids
    ensures multiset(RowsOf(atts, {id} + ids)) == multiset(RowsOf(atts, {id})) + multiset(RowsOf(atts, ids))
  {
    if |atts| > 0 {
      var a, rest := atts[0], atts[1..];
      RowsOfUnion(rest, id, ids);
      if a.employeeId == id {
        assert RowsOf(atts, {id} + ids) == [a] + RowsOf(rest, {id} + ids);
        assert RowsOf(atts, {id}) == [a] + RowsOf(rest, {id});
        assert RowsOf(atts, ids) == RowsOf(rest, ids);
      } else if a.employeeId in ids {
        assert RowsOf(atts, {id} + ids) == [a] + RowsOf(rest, {id} + ids);
        assert RowsOf(atts, {id}) == RowsOf(rest, {id});
        assert RowsOf(atts, ids) == [a] + RowsOf(rest, ids);
      } else {
        assert RowsOf(atts, {id} + ids) == RowsOf(rest, {id} + ids);
        assert RowsOf(atts, {id}) == RowsOf(rest, {id});
        assert RowsOf(atts, ids) == RowsOf(rest, ids);
      }
    }
  }

  /** No ids select no rows. */
  lemma {:induction false} NoIdsNoRows(atts: seq<Attendance>)
    ensures RowsOf(atts, {}) == []
  {
    if |atts| > 0 {
      NoIdsNoRows(atts[1..]);
    }
  }

  /** Under the primary key, the join carries every attendance row of a known
      employee exactly once, and no row of an unknown employee. */
  lemma {:induction false} JoinCarriesKnownRows(emps: seq<Employee>, atts: seq<Attendance>)
    requires IdsUnique(emps)
    ensures multiset(AttendancesOf(Join(emps, atts))) == multiset(RowsOf(atts, Ids(emps)))
  {
    if |emps| == 0 {
      assert Ids(emps) == {};
      NoIdsNoRows(atts);
    } else {
      IdsUniqueTail(emps);
      AttendancesOfSplit(JoinOne(emps[0], atts), Join(emps[1..], atts));
      AttendancesOfJoinOne(emps[0], atts);
      JoinCarriesKnownRows(emps[1..], atts);
      RowsOfUnion(atts, emps[0].employeeId, Ids(emps[1..]));
    }
  }

  /** Counting an element of a table, first row apart. */
  lemma CountCons<T>(s: seq<T>, x: T)
    requires |s| > 0
    ensures multiset(s)[x] == (if x == s[0] then 1 else 0) + multiset(s[1..])[x]
  {
    assert s == [s[0]] + s[1..];
  }

  lemma Distribute(h: int, m: int, a: int)
    ensures (h + m) * a == h * a + m * a
  {
  }
}
