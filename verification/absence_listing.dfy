/**
 `GET api/Employees/absent`: employees joined to their attendance rows, the
 joined rows with `IsAbsent > 0` kept, and the employee part of each kept row
 returned. Nothing removes duplicates, so an employee is listed once per
 qualifying attendance row.
 */
module AbsenceListing {
  import opened Tables

  /** How many attendance rows of employee `id` record an absence. */
  function AbsentRows(atts: seq<Attendance>, id: int): (n: nat)
    ensures n <= |atts|
    ensures n == 0 <==> forall a :: a in atts && a.employeeId == id ==> a.isAbsent <= 0
  {
    if |atts| == 0 then 0
    else (if atts[0].employeeId == id && atts[0].isAbsent > 0 then 1 else 0) + AbsentRows(atts[1..], id)
  }

  /** `Where(x => x.Attendance.IsAbsent > 0)`. */
  function KeepAbsent(js: seq<Joined>): (r: seq<Joined>)
    ensures |r| <= |js|
    ensures forall j :: j in r ==> j in js && j.attendance.isAbsent > 0
  {
    if |js| == 0 then []
    else (if js[0].attendance.isAbsent > 0 then [js[0]] else []) + KeepAbsent(js[1..])
  }

  /** `Select(x => x.Employee)`. */
  function EmployeesOf(js: seq<Joined>): (r: seq<Employee>)
    ensures |r| == |js|
    ensures forall i :: 0 <= i < |js| ==> r[i] == js[i].employee
  {
    if |js| == 0 then [] else [js[0].employee] + EmployeesOf(js[1..])
  }

  /** The handler. */
  function GetEmployeesWithAbsence(emps: seq<Employee>, atts: seq<Attendance>): (r: seq<Employee>)
    ensures forall e :: multiset(r)[e] == multiset(emps)[e] * AbsentRows(atts, e.employeeId)
  {
    var r := EmployeesOf(KeepAbsent(Join(emps, atts)));
    forall e ensures multiset(r)[e] == multiset(emps)[e] * AbsentRows(atts, e.employeeId) {
      AbsenceMultiplicity(emps, atts, e);
    }
    r
  }

  lemma KeepAbsentSplit(a: seq<Joined>, b: seq<Joined>)
    ensures KeepAbsent(a + b) == KeepAbsent(a) + KeepAbsent(b)
  {
    if |a| > 0 {
      var h := if a[0].attendance.isAbsent > 0 then [a[0]] else [];
      assert (a + b)[0] == a[0];
      assert (a + b)[1..] == a[1..] + b;
      KeepAbsentSplit(a[1..], b);
      assert KeepAbsent(a + b) == h + KeepAbsent(a[1..] + b);
    } else {
      assert a + b == b;
    }
  }

  /** The filter keeps every joined row with an absence, as often as it
      occurs, and drops every other row. */
  lemma {:induction false} KeepAbsentCount(js: seq<Joined>, j: Joined)
    ensures multiset(KeepAbsent(js))[j] == if j.attendance.isAbsent > 0 then multiset(js)[j] else 0
  {
    if |js| > 0 {
      CountCons(js, j);
      KeepAbsentCount(js[1..], j);
    }
  }

  lemma EmployeesOfSplit(a: seq<Joined>, b: seq<Joined>)
    ensures EmployeesOf(a + b) == EmployeesOf(a) + EmployeesOf(b)
  {
    assert forall i :: 0 <= i < |a + b| ==> EmployeesOf(a + b)[i] == (EmployeesOf(a) + EmployeesOf(b))[i];
  }

  /** The listing contributed by one employee row, one attendance row at a time. */
  lemma AbsentFromOneStep(e: Employee, atts: seq<Attendance>)
    requires |atts| > 0
    ensures EmployeesOf(KeepAbsent(JoinOne(e, atts))) ==
            (if atts[0].employeeId == e.employeeId && atts[0].isAbsent > 0 then [e] else [])
            + EmployeesOf(KeepAbsent(JoinOne(e, atts[1..])))
  {
    var head := if atts[0].employeeId == e.employeeId then [Joined(e, atts[0])] else [];
    var tail := JoinOne(e, atts[1..]);
    assert JoinOne(e, atts) == head + tail;
    KeepAbsentSplit(head, tail);
    EmployeesOfSplit(KeepAbsent(head), KeepAbsent(tail));
  }

  /** One employee row yields itself once per absence recorded against its id. */
  lemma {:induction false} AbsentFromOne(e: Employee, atts: seq<Attendance>, x: Employee)
    ensures multiset(EmployeesOf(KeepAbsent(JoinOne(e, atts))))[x] ==
            if x == e then AbsentRows(atts, e.employeeId) else 0
  {
    if |atts| > 0 {
      AbsentFromOneStep(e, atts);
      AbsentFromOne(e, atts[1..], x);
    }
  }

  /** The listing splits along the first employee row. */
  lemma ListingSplit(emps: seq<Employee>, atts: seq<Attendance>, x: Employee)
    requires |emps| > 0
    ensures multiset(EmployeesOf(KeepAbsent(Join(emps, atts))))[x] ==
            multiset(EmployeesOf(KeepAbsent(JoinOne(emps[0], atts))))[x]
            + multiset(EmployeesOf(KeepAbsent(Join(emps[1..], atts))))[x]
  {
    var first := JoinOne(emps[0], atts);
    var rest := Join(emps[1..], atts);
    assert Join(emps, atts) == first + rest;
    KeepAbsentSplit(first, rest);
    EmployeesOfSplit(KeepAbsent(first), KeepAbsent(rest));
  }

  lemma {:induction false} AbsenceMultiplicity(emps: seq<Employee>, atts: seq<Attendance>, x: Employee)
    ensures multiset(EmployeesOf(KeepAbsent(Join(emps, atts))))[x] ==
            multiset(emps)[x] * AbsentRows(atts, x.employeeId)
  {
    if |emps| > 0 {
      ListingSplit(emps, atts, x);
      AbsentFromOne(emps[0], atts, x);
      AbsenceMultiplicity(emps[1..], atts, x);
      var m := multiset(emps[1..])[x];
      var n := AbsentRows(atts, x.employeeId);
      CountCons(emps, x);
      if x == emps[0] {
        Distribute(m, 1, n);
      }
    }
  }

  /** Listed exactly when the employee is in the table and has a recorded absence. */
  lemma ListedIffAbsent(emps: seq<Employee>, atts: seq<Attendance>, e: Employee)
    ensures e in GetEmployeesWithAbsence(emps, atts) <==>
            e in emps && exists a :: a in atts && a.employeeId == e.employeeId && a.isAbsent > 0
  {
    var r := GetEmployeesWithAbsence(emps, atts);
    PositiveProduct(multiset(emps)[e], AbsentRows(atts, e.employeeId));
    assert e in r <==> multiset(r)[e] > 0;
    assert e in emps <==> multiset(emps)[e] > 0;
  }

  lemma PositiveProduct(c: nat, n: nat)
    ensures c * n > 0 <==> c > 0 && n > 0
  {
    if c > 0 && n > 0 {
      assert c * n >= n;
    }
  }

  /** With the primary key in force, each employee row is listed exactly as
      many times as it has absences. */
  lemma OncePerAbsence(emps: seq<Employee>, atts: seq<Attendance>, k: nat)
    requires IdsUnique(emps)
    requires k < |emps|
    ensures multiset(GetEmployeesWithAbsence(emps, atts))[emps[k]] == AbsentRows(atts, emps[k].employeeId)
  {
    UniqueRowOnce(emps, k);
  }

  /** Under the primary key, a row occurs once in its table. */
  lemma {:induction false} UniqueRowOnce(emps: seq<Employee>, k: nat)
    requires IdsUnique(emps)
    requires k < |emps|
    ensures multiset(emps)[emps[k]] == 1
  {
    var e := emps[k];
    assert emps == emps[..k] + [e] + emps[k+1..];
    assert e !in emps[..k];
    assert e !in emps[k+1..];
    assert multiset(emps)[e] == multiset(emps[..k])[e] + 1 + multiset(emps[k+1..])[e];
  }

  /** An employee without attendance rows is never listed. */
  lemma NoAttendanceNotListed(emps: seq<Employee>, atts: seq<Attendance>, e: Employee)
    requires forall a :: a in atts ==> a.employeeId != e.employeeId
    ensures e !in GetEmployeesWithAbsence(emps, atts)
  {
    ListedIffAbsent(emps, atts, e);
  }
}
