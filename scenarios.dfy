/** Verified scenarios over a fresh store.  They show the business rules at work
    through the HTTP handlers, and what the service layer and the
    department update let through. */
module Scenarios {
  import opened Envelope
  import opened Text
  import opened EmployeeModel
  import opened Database
  import EmployeeService
  import DepartmentController
  import EmployeeController

  /** A create body with the given department. */
  function NewEmployee(first: string, last: string, d: Id): Fields
  {
    Fields(Some(first), Some(last), Some(d), None, None, None)
  }

  /** A body that changes only the department. */
  function MoveTo(d: Id): Fields
  {
    Fields(None, None, Some(d), None, None, None)
  }

  /** A name with no white space at either end, which the schema keeps
      as it is. */
  predicate PlainName(s: string)
  {
    s != [] && !IsSpace(s[0]) && !IsSpace(s[|s| - 1])
  }

  /** The schema accepts plain names and stores them unchanged. */
  lemma Accepted(first: string, last: string, d: Id)
    requires PlainName(first) && PlainName(last)
    ensures HasRequired(NewEmployee(first, last, d))
    ensures Construct(CreateFields(NewEmployee(first, last, d))) == Some(Employee(first, last, d, None, None, true))
  {
    TrimKeeps(first);
    TrimKeeps(last);
  }

  /** Create a department, fail to create it again, fail to create an
      employee in a department that does not exist, create one in the
      department, fail to delete the department while it has the employee,
      delete the employee, then delete the department. */
  method SurgeryWalkthrough() returns (statuses: seq<nat>, integrity: bool)
    ensures statuses == [CREATED, BAD_REQUEST, BAD_REQUEST, CREATED, BAD_REQUEST, OK, OK]
    ensures integrity
  {
    var db, surgery, s1, s2 := CreateTwice("Surgery");
    var s3 := HireIntoMissing(db, "A", "B");
    var employee, s4 := Hire(db, surgery, "A", "B");
    var s5, s6, s7 := Close(db, surgery, employee);
    statuses := [s1, s2, s3, s4, s5, s6, s7];
    integrity := Integrity(db.departments, db.employees);
  }

  /** Creating the same department twice: 201, then 400. */
  method CreateTwice(name: string) returns (db: Store, dept: Id, s1: nat, s2: nat)
    ensures fresh(db) && db.Valid()
    ensures db.departments == map[dept := Department(name, None)] && db.employees == map[]
    ensures s1 == CREATED && s2 == BAD_REQUEST
  {
    db := new Store();
    var r1 := DepartmentController.CreateDepartment(db, name, None);
    dept := r1.body.data.value.id;
    assert db.departments[dept].name == name;
    var r2 := DepartmentController.CreateDepartment(db, name, None);
    s1, s2 := r1.status, r2.status;
  }

  /** Hiring into a department that does not exist: 400, nothing stored. */
  method HireIntoMissing(db: Store, first: string, last: string) returns (status: nat)
    requires db.Valid() && PlainName(first) && PlainName(last)
    modifies db
    ensures db.Valid()
    ensures db.departments == old(db.departments) && db.employees == old(db.employees)
    ensures status == BAD_REQUEST
  {
    var missing := db.nextId;
    Accepted(first, last, missing);
    var r := EmployeeController.CreateEmployee(db, NewEmployee(first, last, missing));
    status := r.status;
  }

  /** Hiring into an existing department of an empty directory: 201. */
  method Hire(db: Store, dept: Id, first: string, last: string) returns (employee: Id, status: nat)
    requires db.Valid() && PlainName(first) && PlainName(last)
    requires dept in db.departments && db.employees == map[]
    modifies db
    ensures db.Valid()
    ensures db.departments == old(db.departments)
    ensures db.employees == map[employee := Employee(first, last, dept, None, None, true)]
    ensures status == CREATED
  {
    Accepted(first, last, dept);
    var r := EmployeeController.CreateEmployee(db, NewEmployee(first, last, dept));
    employee := r.body.data.value.id;
    status := r.status;
  }

  /** Deleting a department with its one employee: 400; deleting the
      employee: 200; deleting the department again: 200. */
  method Close(db: Store, dept: Id, employee: Id) returns (s5: nat, s6: nat, s7: nat)
    requires db.Valid()
    requires db.departments.Keys == {dept}
    requires employee in db.employees && db.employees.Keys == {employee} && db.employees[employee].department == dept
    modifies db
    ensures db.Valid()
    ensures db.departments == map[] && db.employees == map[]
    ensures s5 == BAD_REQUEST && s6 == OK && s7 == OK
  {
    assert employee in ReferencingIds(db.employees, dept);
    var r5 := DepartmentController.DeleteDepartment(db, dept);
    var r6 := EmployeeController.DeleteEmployee(db, employee);
    assert db.employees == map[];
    assert ReferencingIds(db.employees, dept) == {};
    var r7 := DepartmentController.DeleteDepartment(db, dept);
    s5, s6, s7 := r5.status, r6.status, r7.status;
    assert db.departments.Keys == {};
  }

  /** The employee service saves an employee whose department does not
      exist, which breaks referential integrity. */
  method ServiceCreateDangles(first: string, last: string, d: Id) returns (serviceSaved: bool, integrity: bool)
    requires PlainName(first) && PlainName(last)
    ensures serviceSaved && !integrity
  {
    var db := new Store();
    Accepted(first, last, d);
    var saved := EmployeeService.CreateEmployee(db, NewEmployee(first, last, d));
    serviceSaved := saved.Returned? && saved.result.success;
    var id := saved.result.data.value.id;
    assert id in db.employees && db.employees[id].department == d;
    integrity := Integrity(db.departments, db.employees);
  }

  /** The handler refuses every create in an empty directory with 400 and
      stores nothing: either a required field is missing or the department
      does not exist. */
  method HandlerRefusesMissingDepartment(body: Fields) returns (status: nat, stored: nat)
    ensures status == BAD_REQUEST && stored == 0
  {
    var db := new Store();
    var refused := EmployeeController.CreateEmployee(db, body);
    status := refused.status;
    stored := |db.employees|;
  }

  /** A directory with one department and one employee in it. */
  method OneEmployee(name: string, first: string, last: string) returns (db: Store, dept: Id, employee: Id)
    requires PlainName(first) && PlainName(last)
    ensures fresh(db) && db.Valid()
    ensures dept in db.departments && db.departments.Keys == {dept}
    ensures db.employees == map[employee := Employee(first, last, dept, None, None, true)]
  {
    db := new Store();
    var r := DepartmentController.CreateDepartment(db, name, None);
    dept := r.body.data.value.id;
    var status;
    employee, status := Hire(db, dept, first, last);
  }

  /** The employee service moves an employee to a department that does not
      exist; the handler refuses the same update with 400. */
  method ServiceUpdateDangles(name: string, first: string, last: string) returns (serviceUpdated: bool, before: bool, after: bool, handlerStatus: nat)
    requires PlainName(first) && PlainName(last)
    ensures serviceUpdated && before && !after
    ensures handlerStatus == BAD_REQUEST
  {
    var db, dept, employee := OneEmployee(name, first, last);
    before := Integrity(db.departments, db.employees);
    var missing := db.nextId;
    var refused := EmployeeController.UpdateEmployee(db, employee, MoveTo(missing));
    handlerStatus := refused.status;
    var moved := EmployeeService.UpdateEmployee(db, employee, MoveTo(missing));
    serviceUpdated := moved.Returned? && moved.result.success;
    assert employee in db.employees && db.employees[employee].department == missing;
    after := Integrity(db.departments, db.employees);
  }

  /** Renaming a department to another department's name succeeds, so
      name uniqueness holds after every create but not after an update. */
  method RenameDuplicates(a: string, b: string) returns (before: bool, status: nat, after: bool)
    requires a != b
    ensures before && status == OK && !after
  {
    var db := new Store();
    var first := DepartmentController.CreateDepartment(db, a, None);
    assert !HasDepartmentNamed(db.departments, b);
    var second := DepartmentController.CreateDepartment(db, b, None);
    before := UniqueNames(db.departments);
    var renamed := DepartmentController.UpdateDepartment(db, second.body.data.value.id, DepartmentFields(Some(a), None));
    status := renamed.status;
    after := UniqueNames(db.departments);
    assert db.departments[first.body.data.value.id].name == db.departments[second.body.data.value.id].name;
  }
}
