/** The employee HTTP handlers.  Besides the service's rules they check
    that the department a create or an update names exists, so that every
    write through them keeps referential integrity. */
module EmployeeController {
  import opened Envelope
  import opened Lists
  import opened EmployeeModel
  import opened Database

  /** `GET /api/employees`: every employee once, in (lastName, firstName)
      order, with the department's name. */
  function GetAllEmployees(db: Store): (r: Reply<seq<EmployeeView>>)
    reads db
    ensures r.status == OK && r.body.success && r.body.data.Some? && r.body.count == Some(|r.body.data.value|)
    ensures Sorted(r.body.data.value, ViewKey)
    ensures |r.body.data.value| == |db.employees|
    ensures forall v :: v in r.body.data.value <==> IsViewOf(db.departments, db.employees, NameOnly, v)
  {
    EmployeesWhereSortedSpec(db.departments, db.employees, Everyone(), NameOnly);
    EveryoneMatches(db.employees);
    Reply(OK, Listing(EmployeesWhereSorted(db.departments, db.employees, Everyone(), NameOnly)))
  }

  /** `GET /api/employees/:id`. */
  function GetEmployeeById(db: Store, id: Id): (r: Reply<EmployeeView>)
    reads db
    ensures r.body.success <==> id in db.employees
    ensures r.body.success ==> && r.status == OK && r.body.data.Some? && r.body.data.value.id == id
                               && IsViewOf(db.departments, db.employees, NameOnly, r.body.data.value)
    ensures !r.body.success ==> r == Reply(NOT_FOUND, Failure("Employee not found"))
  {
    var found := FindById(db.employees, id);
    if found.None? then Reply(NOT_FOUND, Failure("Employee not found"))
    else Reply(OK, Single(None, View(db.departments, found.value, NameOnly)))
  }

  /** `POST /api/employees`: 400 when a required field is falsy or the
      department does not exist, 500 when the schema rejects the record,
      else 201. */
  method CreateEmployee(db: Store, body: Fields) returns (r: Reply<EmployeeView>)
    requires db.Valid()
    modifies db
    ensures db.Valid()
    ensures db.departments == old(db.departments)
    ensures !HasRequired(body) ==>
      && r == Reply(BAD_REQUEST, Failure("First name, last name, and department are required"))
      && db.employees == old(db.employees)
    ensures HasRequired(body) && body.department.value !in db.departments ==>
      r == Reply(BAD_REQUEST, Failure("Department not found")) && db.employees == old(db.employees)
    ensures HasRequired(body) && body.department.value in db.departments && Construct(CreateFields(body)).None? ==>
      r == Reply(SERVER_ERROR, Failure("Error creating employee")) && db.employees == old(db.employees)
    ensures HasRequired(body) && body.department.value in db.departments && Construct(CreateFields(body)).Some? ==>
      && r.status == CREATED && r.body.success && r.body.message == Some("Employee created successfully")
      && r.body.data.Some?
      && r.body.data.value.id !in old(db.employees)
      && r.body.data.value.employee == Construct(CreateFields(body)).value
      && db.employees == old(db.employees)[r.body.data.value.id := r.body.data.value.employee]
      && IsViewOf(db.departments, db.employees, NameOnly, r.body.data.value)
    ensures Integrity(old(db.departments), old(db.employees)) ==> Integrity(db.departments, db.employees)
  {
    if !HasRequired(body) {
      return Reply(BAD_REQUEST, Failure("First name, last name, and department are required"));
    }
    if FindById(db.departments, body.department.value).None? {
      return Reply(BAD_REQUEST, Failure("Department not found"));
    }
    var saved := db.InsertEmployee(CreateFields(body));
    if saved.None? {
      return Reply(SERVER_ERROR, Failure("Error creating employee"));
    }
    var found := FindById(db.employees, saved.value.id);
    r := Reply(CREATED, Single(Some("Employee created successfully"), View(db.departments, found.value, NameOnly)));
  }

  /** `PUT /api/employees/:id`: 400 when the update names a department that
      does not exist (checked before the employee is looked up), 500 when
      the validators reject it, 404 for an unknown id, else 200. */
  method UpdateEmployee(db: Store, id: Id, body: Fields) returns (r: Reply<EmployeeView>)
    requires db.Valid()
    modifies db
    ensures db.Valid()
    ensures db.departments == old(db.departments)
    ensures body.department.Some? && body.department.value !in db.departments ==>
      r == Reply(BAD_REQUEST, Failure("Department not found")) && db.employees == old(db.employees)
    ensures (body.department.None? || body.department.value in db.departments) && !PatchValid(body) ==>
      r == Reply(SERVER_ERROR, Failure("Error updating employee")) && db.employees == old(db.employees)
    ensures (body.department.None? || body.department.value in db.departments) && PatchValid(body) && id !in old(db.employees) ==>
      r == Reply(NOT_FOUND, Failure("Employee not found")) && db.employees == old(db.employees)
    ensures (body.department.None? || body.department.value in db.departments) && PatchValid(body) && id in old(db.employees) ==>
      && r.status == OK && r.body.success && r.body.message == Some("Employee updated successfully")
      && r.body.data.Some? && r.body.data.value.id == id
      && r.body.data.value.employee == Patch(old(db.employees)[id], body)
      && db.employees == old(db.employees)[id := r.body.data.value.employee]
      && IsViewOf(db.departments, db.employees, NameOnly, r.body.data.value)
    ensures Integrity(old(db.departments), old(db.employees)) ==> Integrity(db.departments, db.employees)
  {
    if body.department.Some? && FindById(db.departments, body.department.value).None? {
      return Reply(BAD_REQUEST, Failure("Department not found"));
    }
    var outcome := db.UpdateEmployee(id, body);
    match outcome
    case Invalid =>
      r := Reply(SERVER_ERROR, Failure("Error updating employee"));
    case Missing =>
      r := Reply(NOT_FOUND, Failure("Employee not found"));
    case Updated(e) =>
      r := Reply(OK, Single(Some("Employee updated successfully"), View(db.departments, e, NameOnly)));
  }

  /** `DELETE /api/employees/:id`: 404 for an unknown id, else 200. */
  method DeleteEmployee(db: Store, id: Id) returns (r: Reply<()>)
    requires db.Valid()
    modifies db
    ensures db.Valid()
    ensures id !in old(db.employees) ==> r == Reply(NOT_FOUND, Failure("Employee not found"))
    ensures id in old(db.employees) ==> r == Reply(OK, Done("Employee deleted successfully"))
    ensures db.employees == old(db.employees) - {id}
    ensures db.departments == old(db.departments)
    ensures Integrity(old(db.departments), old(db.employees)) ==> Integrity(db.departments, db.employees)
  {
    var removed := db.RemoveEmployee(id);
    if removed.None? {
      return Reply(NOT_FOUND, Failure("Employee not found"));
    }
    r := Reply(OK, Done("Employee deleted successfully"));
  }

  /** `GET /api/employees/department/:departmentId`: the employees that
      reference the department, in (lastName, firstName) order. */
  function GetEmployeesByDepartment(db: Store, d: Id): (r: Reply<seq<EmployeeView>>)
    reads db
    ensures r.status == OK && r.body.success && r.body.data.Some? && r.body.count == Some(|r.body.data.value|)
    ensures Sorted(r.body.data.value, ViewKey)
    ensures |r.body.data.value| == CountEmployeesIn(db.employees, d)
    ensures forall v :: v in r.body.data.value <==>
      IsViewOf(db.departments, db.employees, NameOnly, v) && v.employee.department == d
  {
    EmployeesWhereSortedSpec(db.departments, db.employees, InDepartment(d), NameOnly);
    CountIsMatching(db.employees, d);
    Reply(OK, Listing(EmployeesWhereSorted(db.departments, db.employees, InDepartment(d), NameOnly)))
  }
}
