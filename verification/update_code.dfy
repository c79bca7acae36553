/**
 `PUT api/Employees/{id}`: change one employee's `EmployeeCode`.

 The handler looks the id up first (not found wins over everything else), then
 refuses a code that an employee with a different id already holds, and only
 then writes. The write itself can fail inside the persistence layer; whether
 it does is a fact about the store, so it is an input here (`saved`).
 */
module UpdateCode {
  import opened Tables

  /** The HTTP outcomes the handler produces: 204, 404, 409 and 500. */
  datatype Status = NoContent | NotFound | Conflict | ServerError

  /** The handler's answer together with the `Employees` table after the request. */
  datatype Response = Response(status: Status, employees: seq<Employee>)

  /** What a lookup by primary key finds: a row, or nothing (`null`). */
  datatype Lookup = Missing | Found(row: Employee)

  /** `FindAsync(id)`: the employee row with primary key `id`, if there is one. */
  function FindById(emps: seq<Employee>, id: int): (r: Lookup)
    ensures r.Found? ==> r.row in emps && r.row.employeeId == id
    ensures r.Missing? <==> forall e :: e in emps ==> e.employeeId != id
  {
    if |emps| == 0 then Missing
    else if emps[0].employeeId == id then Found(emps[0])
    else FindById(emps[1..], id)
  }

  /** `AnyAsync(e => e.EmployeeCode == code && e.EmployeeId != id)`: does an
      employee other than `id` already hold `code`? Scans the table row by row. */
  function CodeHeldByOther(emps: seq<Employee>, code: string, id: int): (held: bool)
    ensures held <==> exists e :: e in emps && e.employeeCode == code && e.employeeId != id
  {
    if |emps| == 0 then false
    else (emps[0].employeeCode == code && emps[0].employeeId != id) || CodeHeldByOther(emps[1..], code, id)
  }

  /** The table with the code of employee `id` set to `code`. */
  function SetCode(emps: seq<Employee>, id: int, code: string): (r: seq<Employee>)
    ensures |r| == |emps|
    ensures forall i :: 0 <= i < |emps| && emps[i].employeeId != id ==> r[i] == emps[i]
    ensures forall i :: 0 <= i < |emps| && emps[i].employeeId == id ==> r[i] == emps[i].(employeeCode := code)
  {
    if |emps| == 0 then []
    else [if emps[0].employeeId == id then emps[0].(employeeCode := code) else emps[0]]
         + SetCode(emps[1..], id, code)
  }

  /** The handler. Not found is decided before conflict, and conflict before
      the write; only a successful write changes the table, and it changes
      nothing but the target's code. */
  function UpdateEmployeeCode(emps: seq<Employee>, id: Int32, code: string, saved: bool): (r: Response)
    ensures r.status == NotFound <==> forall e :: e in emps ==> e.employeeId != id
    ensures r.status == Conflict <==>
              (exists e :: e in emps && e.employeeId == id) && CodeHeldByOther(emps, code, id)
    ensures r.status == ServerError <==>
              (exists e :: e in emps && e.employeeId == id) && !CodeHeldByOther(emps, code, id) && !saved
    ensures r.status != NoContent ==> r.employees == emps
    ensures r.status == NoContent ==>
              && |r.employees| == |emps|
              && (forall i :: 0 <= i < |emps| && emps[i].employeeId != id ==> r.employees[i] == emps[i])
              && (forall i :: 0 <= i < |emps| && emps[i].employeeId == id ==>
                    r.employees[i] == emps[i].(employeeCode := code))
  {
    match FindById(emps, id)
    case Missing => Response(NotFound, emps)
    case Found(_) =>
      if CodeHeldByOther(emps, code, id) then Response(Conflict, emps)
      else if !saved then Response(ServerError, emps)
      else Response(NoContent, SetCode(emps, id, code))
  }

  /** Employee codes are unique across employees (distinct ids never share a code). */
  predicate CodesUnique(emps: seq<Employee>) {
    forall i, j :: 0 <= i < |emps| && 0 <= j < |emps| && emps[i].employeeId != emps[j].employeeId ==>
      emps[i].employeeCode != emps[j].employeeCode
  }

  /** An unknown id is answered with not found and nothing changes, even when
      the requested code is already taken: the lookup comes first. */
  lemma UnknownIdIsNotFound(emps: seq<Employee>, id: Int32, code: string, saved: bool)
    requires forall e :: e in emps ==> e.employeeId != id
    ensures UpdateEmployeeCode(emps, id, code, saved) == Response(NotFound, emps)
  {
  }

  /** A code held by a different employee is a conflict for a known id, and
      every employee keeps its code. */
  lemma TakenCodeIsConflict(emps: seq<Employee>, id: Int32, code: string, saved: bool, k: nat)
    requires k < |emps| && emps[k].employeeId == id
    requires CodeHeldByOther(emps, code, id)
    ensures UpdateEmployeeCode(emps, id, code, saved) == Response(Conflict, emps)
  {
    assert emps[k] in emps;
  }

  /** Re-submitting an employee's own current code is never a conflict when
      codes are unique; if, in addition, ids are unique and the write
      succeeds, the table is unchanged. */
  lemma OwnCodeIsNoConflict(emps: seq<Employee>, id: Int32, saved: bool, k: nat)
    requires k < |emps| && emps[k].employeeId == id
    requires CodesUnique(emps)
    ensures UpdateEmployeeCode(emps, id, emps[k].employeeCode, saved).status != Conflict
    ensures IdsUnique(emps) && saved ==>
              UpdateEmployeeCode(emps, id, emps[k].employeeCode, saved) == Response(NoContent, emps)
  {
    var code := emps[k].employeeCode;
    assert emps[k] in emps;
    if IdsUnique(emps) && saved {
      var r := UpdateEmployeeCode(emps, id, code, saved);
      assert r.status == NoContent;
      forall i | 0 <= i < |emps| && emps[i].employeeId == id
        ensures emps[i].(employeeCode := code) == emps[i]
      {
        assert i == k;
      }
      assert r.employees == emps;
    }
  }

  /** After a successful update the target holds the new code, and no other
      employee holds it: a later lookup of `id` reads the new code. */
  lemma SuccessMakesCodeOwned(emps: seq<Employee>, id: Int32, code: string)
    requires UpdateEmployeeCode(emps, id, code, true).status == NoContent
    ensures var after := UpdateEmployeeCode(emps, id, code, true).employees;
            && (forall e :: e in after && e.employeeId != id ==> e.employeeCode != code)
            && FindById(after, id).Found?
            && FindById(after, id).row.employeeCode == code
            && FindById(after, id) == Found(FindById(emps, id).row.(employeeCode := code))
  {
    var after := UpdateEmployeeCode(emps, id, code, true).employees;
    assert after == SetCode(emps, id, code);
    forall e | e in after && e.employeeId != id
      ensures e.employeeCode != code
    {
      var i :| 0 <= i < |after| && after[i] == e;
      assert after[i] == emps[i];
      assert emps[i] in emps;
    }
    FindAfterSetCode(emps, id, code);
  }

  /** Looking `id` up in the rewritten table finds the original row with the new code. */
  lemma {:induction false} FindAfterSetCode(emps: seq<Employee>, id: int, code: string)
    ensures FindById(SetCode(emps, id, code), id) ==
            if FindById(emps, id).Found? then Found(FindById(emps, id).row.(employeeCode := code)) else Missing
  {
    if |emps| > 0 && emps[0].employeeId != id {
      FindAfterSetCode(emps[1..], id, code);
      assert SetCode(emps, id, code)[1..] == SetCode(emps[1..], id, code);
    }
  }

  /** Every outcome keeps the primary key intact, and starting from unique
      codes every outcome ends with unique codes. */
  lemma UpdateKeepsInvariants(emps: seq<Employee>, id: Int32, code: string, saved: bool)
    requires IdsUnique(emps)
    ensures IdsUnique(UpdateEmployeeCode(emps, id, code, saved).employees)
    ensures CodesUnique(emps) ==> CodesUnique(UpdateEmployeeCode(emps, id, code, saved).employees)
  {
    var r := UpdateEmployeeCode(emps, id, code, saved);
    if r.status == NoContent && CodesUnique(emps) {
      var after := r.employees;
      forall i, j | 0 <= i < |after| && 0 <= j < |after| && after[i].employeeId != after[j].employeeId
        ensures after[i].employeeCode != after[j].employeeCode
      {
        if emps[i].employeeId == id {
          assert emps[j] in emps;
        } else if emps[j].employeeId == id {
          assert emps[i] in emps;
        }
      }
    }
  }
}
