/**
 Worked examples on small tables, proved for each handler: the Alice/Bob
 example, and the report's two merging behaviours (month without year, name
 without id).
 */
module Scenarios {
  import opened Tables
  import opened UpdateCode
  import SalaryListing
  import AbsenceListing
  import MonthlyReport

  const Alice: Employee := Employee(1, "Alice", "E1", 50000)
  const Bob: Employee := Employee(2, "Bob", "E2", 90000)

  /** Bob earns 900.00 and Alice 500.00, so Bob is listed first. */
  lemma BobBeforeAlice()
    ensures SalaryListing.GetEmployeesBySalary([Alice, Bob]) == [Bob, Alice]
  {
  }

  /** Alice cannot take Bob's code, but can take an unused one. */
  lemma AliceTakesCode()
    ensures UpdateEmployeeCode([Alice, Bob], 1, "E2", true) == Response(Conflict, [Alice, Bob])
    ensures UpdateEmployeeCode([Alice, Bob], 1, "E3", true) ==
            Response(NoContent, [Alice.(employeeCode := "E3"), Bob])
    ensures UpdateEmployeeCode([Alice, Bob], 3, "E2", true) == Response(NotFound, [Alice, Bob])
  {
    assert Bob in [Alice, Bob];
    assert Alice in [Alice, Bob];
  }

  const Absences: seq<Attendance> := [
    Attendance(10, 1, Date(2023, 3, 1), 0, 1, 0),
    Attendance(11, 2, Date(2023, 3, 1), 1, 0, 0),
    Attendance(12, 1, Date(2023, 3, 2), 0, 1, 0)]

  /** Two absences give two listings of the same employee; Bob, present
      only, is not listed. */
  lemma AbsencesAreNotDeduplicated()
    ensures AbsenceListing.GetEmployeesWithAbsence([Alice, Bob], Absences) == [Alice, Alice]
  {
    var r := AbsenceListing.GetEmployeesWithAbsence([Alice, Bob], Absences);
    AbsenceCounts();
    OnlyOneValue(r, Alice);
  }

  lemma AbsenceCounts()
    ensures multiset(AbsenceListing.GetEmployeesWithAbsence([Alice, Bob], Absences)) == multiset{Alice, Alice}
  {
    var r := AbsenceListing.GetEmployeesWithAbsence([Alice, Bob], Absences);
    TwiceAlice(r);
  }

  /** The counts the absence listing's contract gives for `Absences`. */
  lemma TwiceAlice(r: seq<Employee>)
    requires forall e :: multiset(r)[e] == multiset([Alice, Bob])[e] * AbsenceListing.AbsentRows(Absences, e.employeeId)
    ensures multiset(r) == multiset{Alice, Alice}
  {
    assert AbsenceListing.AbsentRows(Absences, 1) == 2;
    forall e ensures multiset(r)[e] == multiset{Alice, Alice}[e] {
      assert multiset([Alice, Bob])[e] == (if e == Alice then 1 else 0) + (if e == Bob then 1 else 0);
      if e == Bob {
        assert AbsenceListing.AbsentRows(Absences, 2) == 0;
      }
    }
  }

  /** A sequence holding `x` twice and nothing else is `[x, x]`. */
  lemma OnlyOneValue<T>(r: seq<T>, x: T)
    requires multiset(r) == multiset{x, x}
    ensures r == [x, x]
  {
    assert |r| == |multiset(r)| == 2;
    assert r[0] in multiset(r) && r[1] in multiset(r);
  }

  /** A report whose joined rows all carry key `k` is the single row holding
      their sums. */
  lemma OneGroup(emps: seq<Employee>, atts: seq<Attendance>, k: MonthlyReport.GroupKey)
    requires exists j :: j in Join(emps, atts)
    requires forall j :: j in Join(emps, atts) ==> MonthlyReport.KeyOf(j) == k
    ensures var js := Join(emps, atts);
            MonthlyReport.GetMonthlyAttendanceReport(emps, atts) ==
            [MonthlyReport.ReportRow(k.employeeName, k.month,
               MonthlyReport.GroupSum(js, k, MonthlyReport.Present),
               MonthlyReport.GroupSum(js, k, MonthlyReport.Absent),
               MonthlyReport.GroupSum(js, k, MonthlyReport.Offday))]
  {
    var js := Join(emps, atts);
    var r := MonthlyReport.GetMonthlyAttendanceReport(emps, atts);
    assert k in MonthlyReport.KeysOf(r);
    forall i | 0 <= i < |r| ensures r[i].Key() == k {
      assert r[i].Key() in MonthlyReport.KeysOf(r);
    }
    MonthlyReport.ReportRowCount(emps, atts);
    assert (set j | j in js :: MonthlyReport.KeyOf(j)) == {k};
    assert r[0].Total(MonthlyReport.Present) == MonthlyReport.GroupSum(js, k, MonthlyReport.Present);
    assert r[0].Total(MonthlyReport.Absent) == MonthlyReport.GroupSum(js, k, MonthlyReport.Absent);
    assert r[0].Total(MonthlyReport.Offday) == MonthlyReport.GroupSum(js, k, MonthlyReport.Offday);
  }

  /** A group of two joined rows sums their values. */
  lemma TwoRowSums(js: seq<Joined>, k: MonthlyReport.GroupKey, c: MonthlyReport.Column)
    requires |js| == 2 && MonthlyReport.KeyOf(js[0]) == k && MonthlyReport.KeyOf(js[1]) == k
    ensures MonthlyReport.GroupSum(js, k, c) ==
            MonthlyReport.Value(js[0].attendance, c) + MonthlyReport.Value(js[1].attendance, c)
  {
    assert js[1..][0] == js[1] && js[1..][1..] == [];
    assert MonthlyReport.GroupSum(js[1..], k, c) == MonthlyReport.Value(js[1].attendance, c);
  }

  const Januaries: seq<Attendance> := [
    Attendance(10, 1, Date(2022, 1, 10), 0, 1, 0),
    Attendance(11, 1, Date(2023, 1, 11), 1, 0, 0)]

  lemma JanuariesJoin()
    ensures Join([Alice], Januaries) == [Joined(Alice, Januaries[0]), Joined(Alice, Januaries[1])]
  {
    assert JoinOne(Alice, Januaries[1..]) == [Joined(Alice, Januaries[1])];
  }

  /** The joined rows of `Januaries` form the one group ("Alice", January). */
  lemma JanuariesGroup()
    ensures Joined(Alice, Januaries[0]) in Join([Alice], Januaries)
    ensures forall j :: j in Join([Alice], Januaries) ==> MonthlyReport.KeyOf(j) == MonthlyReport.GroupKey("Alice", 1)
    ensures MonthlyReport.GroupSum(Join([Alice], Januaries), MonthlyReport.GroupKey("Alice", 1), MonthlyReport.Present) == 1
    ensures MonthlyReport.GroupSum(Join([Alice], Januaries), MonthlyReport.GroupKey("Alice", 1), MonthlyReport.Absent) == 1
    ensures MonthlyReport.GroupSum(Join([Alice], Januaries), MonthlyReport.GroupKey("Alice", 1), MonthlyReport.Offday) == 0
  {
    var js := [Joined(Alice, Januaries[0]), Joined(Alice, Januaries[1])];
    JanuariesJoin();
    var k := MonthlyReport.GroupKey("Alice", 1);
    TwoRowSums(js, k, MonthlyReport.Present);
    TwoRowSums(js, k, MonthlyReport.Absent);
    TwoRowSums(js, k, MonthlyReport.Offday);
  }

  /** January 2022 and January 2023 land in one report row. */
  lemma YearsMerge()
    ensures MonthlyReport.GetMonthlyAttendanceReport([Alice], Januaries)
            == [MonthlyReport.ReportRow("Alice", 1, 1, 1, 0)]
  {
    JanuariesGroup();
    OneGroup([Alice], Januaries, MonthlyReport.GroupKey("Alice", 1));
  }

  const Alice2: Employee := Employee(3, "Alice", "E3", 40000)

  const March: seq<Attendance> := [
    Attendance(10, 1, Date(2023, 3, 1), 1, 0, 0),
    Attendance(11, 3, Date(2023, 3, 1), 0, 0, 1),
    Attendance(12, 99, Date(2023, 3, 1), 0, 1, 0)]

  lemma MarchJoin()
    ensures Join([Alice, Alice2], March) == [Joined(Alice, March[0]), Joined(Alice2, March[1])]
  {
    assert JoinOne(Alice, March[1..]) == [];
    assert JoinOne(Alice2, March[1..]) == [Joined(Alice2, March[1])];
    assert Join([Alice, Alice2][1..], March) == [Joined(Alice2, March[1])];
  }

  /** The joined rows of `March` form the one group ("Alice", March); the
      row of employee 99 joins nothing. */
  lemma MarchGroup()
    ensures Joined(Alice, March[0]) in Join([Alice, Alice2], March)
    ensures forall j :: j in Join([Alice, Alice2], March) ==> MonthlyReport.KeyOf(j) == MonthlyReport.GroupKey("Alice", 3)
    ensures MonthlyReport.GroupSum(Join([Alice, Alice2], March), MonthlyReport.GroupKey("Alice", 3), MonthlyReport.Present) == 1
    ensures MonthlyReport.GroupSum(Join([Alice, Alice2], March), MonthlyReport.GroupKey("Alice", 3), MonthlyReport.Absent) == 0
    ensures MonthlyReport.GroupSum(Join([Alice, Alice2], March), MonthlyReport.GroupKey("Alice", 3), MonthlyReport.Offday) == 1
  {
    var js := [Joined(Alice, March[0]), Joined(Alice2, March[1])];
    MarchJoin();
    var k := MonthlyReport.GroupKey("Alice", 3);
    TwoRowSums(js, k, MonthlyReport.Present);
    TwoRowSums(js, k, MonthlyReport.Absent);
    TwoRowSums(js, k, MonthlyReport.Offday);
  }

  /** Two employees named Alice share one report row; an attendance row of an
      unknown employee is dropped. */
  lemma NamesMerge()
    ensures MonthlyReport.GetMonthlyAttendanceReport([Alice, Alice2], March)
            == [MonthlyReport.ReportRow("Alice", 3, 1, 0, 1)]
  {
    MarchGroup();
    OneGroup([Alice, Alice2], March, MonthlyReport.GroupKey("Alice", 3));
  }
}
