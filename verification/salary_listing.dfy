/**
 `GET api/Employees`: every employee, highest salary first
 (`ORDER BY EmployeeSalary DESC`).

 SQL fixes nothing about the order of rows with equal salaries, so the
 listing is specified as any permutation of the table that is non-increasing
 in salary; the function below computes one such permutation by insertion.
 */
module SalaryListing {
  import opened Tables

  /** Salaries never increase along `s`. */
  predicate SalaryDescending(s: seq<Employee>) {
    forall i, j :: 0 <= i < j < |s| ==> s[i].employeeSalary >= s[j].employeeSalary
  }

  /** What the query may return: the same rows, ordered by salary, highest first. */
  predicate IsSalaryListing(emps: seq<Employee>, listing: seq<Employee>) {
    multiset(listing) == multiset(emps) && SalaryDescending(listing)
  }

  /** Place `e` before the first row that earns no more than it. */
  function Insert(e: Employee, s: seq<Employee>): (r: seq<Employee>)
    requires SalaryDescending(s)
    ensures SalaryDescending(r)
    ensures multiset(r) == multiset(s) + multiset{e}
  {
    if |s| == 0 then [e]
    else if e.employeeSalary >= s[0].employeeSalary then [e] + s
    else
      var tail := Insert(e, s[1..]);
      assert s == [s[0]] + s[1..];
      HeadEarnsMost(s[0], e, s[1..], tail);
      [s[0]] + tail
  }

  /** A row earning at least everything in `tail` can head it. */
  lemma HeadEarnsMost(h: Employee, e: Employee, rest: seq<Employee>, tail: seq<Employee>)
    requires SalaryDescending([h] + rest)
    requires e.employeeSalary < h.employeeSalary
    requires SalaryDescending(tail)
    requires multiset(tail) == multiset(rest) + multiset{e}
    ensures SalaryDescending([h] + tail)
  {
    forall x | x in tail
      ensures x.employeeSalary <= h.employeeSalary
    {
      assert x in multiset(tail);
      if x != e {
        assert x in multiset(rest);
        var k :| 0 <= k < |rest| && rest[k] == x;
        assert ([h] + rest)[0] == h;
        assert ([h] + rest)[k + 1] == x;
      }
    }
    forall i, j | 0 <= i < j < |[h] + tail|
      ensures ([h] + tail)[i].employeeSalary >= ([h] + tail)[j].employeeSalary
    {
      assert ([h] + tail)[j] == tail[j - 1];
      assert tail[j - 1] in tail;
      if i > 0 {
        assert ([h] + tail)[i] == tail[i - 1];
      }
    }
  }

  /** The handler: the employee table ordered by salary, highest first. */
  function GetEmployeesBySalary(emps: seq<Employee>): (r: seq<Employee>)
    ensures IsSalaryListing(emps, r)
  {
    if |emps| == 0 then []
    else
      assert emps == [emps[0]] + emps[1..];
      Insert(emps[0], GetEmployeesBySalary(emps[1..]))
  }

  /** The salary column of a listing. */
  function Salaries(s: seq<Employee>): (r: seq<int>)
    ensures |r| == |s|
    ensures forall i :: 0 <= i < |s| ==> r[i] == s[i].employeeSalary
  {
    if |s| == 0 then [] else [s[0].employeeSalary] + Salaries(s[1..])
  }

  /** Rows with the same multiset of employees have the same multiset of salaries. */
  lemma {:induction false} SalariesOfPermutation(a: seq<Employee>, b: seq<Employee>)
    requires multiset(a) == multiset(b)
    ensures multiset(Salaries(a)) == multiset(Salaries(b))
  {
    if |a| > 0 {
      var x := a[0];
      assert x in multiset(b);
      var k :| 0 <= k < |b| && b[k] == x;
      var b' := b[..k] + b[k+1..];
      RemoveOne(a, b, k);
      SalariesOfPermutation(a[1..], b');
      SalariesRemove(b, k);
      assert Salaries(a) == [x.employeeSalary] + Salaries(a[1..]);
      assert multiset(Salaries(a)) == multiset{x.employeeSalary} + multiset(Salaries(a[1..]));
    }
  }

  lemma RemoveOne(a: seq<Employee>, b: seq<Employee>, k: nat)
    requires multiset(a) == multiset(b)
    requires 0 < |a| && k < |b| && b[k] == a[0]
    ensures multiset(a[1..]) == multiset(b[..k] + b[k+1..])
  {
    assert b == b[..k] + [b[k]] + b[k+1..];
    assert a == [a[0]] + a[1..];
    assert multiset(a[1..]) == multiset(a) - multiset{a[0]};
  }

  /** Taking row `k` out of a table takes its salary out of the salary column. */
  lemma SalariesRemove(b: seq<Employee>, k: nat)
    requires k < |b|
    ensures multiset(Salaries(b)) ==
            multiset{b[k].employeeSalary} + multiset(Salaries(b[..k] + b[k+1..]))
  {
    assert b == b[..k] + b[k..];
    SalariesOfSplit(b[..k], b[k..]);
    SalariesOfSplit(b[..k], b[k+1..]);
    assert b[k..][1..] == b[k+1..];
    assert Salaries(b[k..]) == [b[k].employeeSalary] + Salaries(b[k+1..]);
  }

  lemma SalariesOfSplit(a: seq<Employee>, b: seq<Employee>)
    ensures Salaries(a + b) == Salaries(a) + Salaries(b)
  {
    assert forall i :: 0 <= i < |a + b| ==> Salaries(a + b)[i] == (Salaries(a) + Salaries(b))[i];
  }

  /** Two non-increasing integer sequences holding the same values are equal. */
  lemma {:induction false} SortedIntsUnique(a: seq<int>, b: seq<int>)
    requires forall i, j :: 0 <= i < j < |a| ==> a[i] >= a[j]
    requires forall i, j :: 0 <= i < j < |b| ==> b[i] >= b[j]
    requires multiset(a) == multiset(b)
    ensures a == b
  {
    assert |b| == |multiset(b)| == |multiset(a)| == |a|;
    if |a| > 0 {
      assert a[0] == b[0] by {
        assert a[0] in multiset(b);
        assert b[0] in multiset(a);
        var i :| 0 <= i < |b| && b[i] == a[0];
        var j :| 0 <= j < |a| && a[j] == b[0];
        assert a[0] >= a[j];
        assert b[0] >= b[i];
      }
      assert a == [a[0]] + a[1..];
      assert b == [b[0]] + b[1..];
      assert multiset(a) == multiset{a[0]} + multiset(a[1..]);
      assert multiset(b) == multiset{b[0]} + multiset(b[1..]);
      assert multiset(a[1..]) == multiset(a) - multiset{a[0]};
      assert multiset(b[1..]) == multiset(b) - multiset{b[0]};
      SortedIntsUnique(a[1..], b[1..]);
    }
  }

  /** Ties may come out in any order, but every admissible listing has the
      same salary column: the one the handler returns is as good as any. */
  lemma SalaryColumnDetermined(emps: seq<Employee>, listing: seq<Employee>)
    requires IsSalaryListing(emps, listing)
    ensures Salaries(listing) == Salaries(GetEmployeesBySalary(emps))
  {
    var mine := GetEmployeesBySalary(emps);
    SalariesOfPermutation(listing, mine);
    SortedIntsUnique(Salaries(listing), Salaries(mine));
  }

  /** The first row of a non-empty listing earns the most. */
  lemma FirstEarnsMost(emps: seq<Employee>)
    requires |emps| > 0
    ensures var r := GetEmployeesBySalary(emps);
            |r| > 0 && forall e :: e in emps ==> r[0].employeeSalary >= e.employeeSalary
  {
    var r := GetEmployeesBySalary(emps);
    assert |r| == |multiset(r)| == |multiset(emps)| == |emps|;
    forall e | e in emps
      ensures r[0].employeeSalary >= e.employeeSalary
    {
      assert e in multiset(r);
      var k :| 0 <= k < |r| && r[k] == e;
    }
  }
}
