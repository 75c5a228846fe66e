/** The department HTTP handlers: the same rules as the department service,
    answered with a status code. */
module DepartmentController {
  import opened Envelope
  import opened Lists
  import opened Database

  /** `GET /api/departments`. */
  function GetAllDepartments(db: Store): (r: Reply<seq<Entry<Department>>>)
    reads db
    ensures r.status == OK && r.body.success && r.body.data.Some? && r.body.count == Some(|r.body.data.value|)
    ensures Sorted(r.body.data.value, NameKey)
    ensures |r.body.data.value| == |db.departments|
    ensures forall d :: d in r.body.data.value <==> d.id in db.departments && db.departments[d.id] == d.value
  {
    DepartmentsByNameSpec(db.departments);
    Reply(OK, Listing(DepartmentsByName(db.departments)))
  }

  /** `GET /api/departments/:id`. */
  function GetDepartmentById(db: Store, id: Id): (r: Reply<Entry<Department>>)
    reads db
    ensures r.body.success <==> id in db.departments
    ensures r.body.success ==> r.status == OK && r.body.data == Some(Entry(id, db.departments[id]))
    ensures !r.body.success ==> r == Reply(NOT_FOUND, Failure("Department not found"))
  {
    var found := FindById(db.departments, id);
    if found.None? then Reply(NOT_FOUND, Failure("Department not found"))
    else Reply(OK, Single(None, found.value))
  }

  /** `POST /api/departments`: 400 when the name is taken, else 201. */
  method CreateDepartment(db: Store, name: string, description: Option<string>) returns (r: Reply<Entry<Department>>)
    requires db.Valid()
    modifies db
    ensures db.Valid()
    ensures HasDepartmentNamed(old(db.departments), name) ==>
      r == Reply(BAD_REQUEST, Failure("Department already exists")) && db.departments == old(db.departments)
    ensures !HasDepartmentNamed(old(db.departments), name) ==>
      && r.status == CREATED && r.body.success && r.body.message == Some("Department created successfully")
      && r.body.data.Some?
      && r.body.data.value.id !in old(db.departments)
      && r.body.data.value.value == Department(name, description)
      && db.departments == old(db.departments)[r.body.data.value.id := r.body.data.value.value]
    ensures db.employees == old(db.employees)
    ensures UniqueNames(old(db.departments)) ==> UniqueNames(db.departments)
    ensures Integrity(old(db.departments), old(db.employees)) ==> Integrity(db.departments, db.employees)
  {
    if HasDepartmentNamed(db.departments, name) {
      return Reply(BAD_REQUEST, Failure("Department already exists"));
    }
    var d := Department(name, description);
    var id := db.InsertDepartment(d);
    r := Reply(CREATED, Single(Some("Department created successfully"), Entry(id, d)));
  }

  /** `PUT /api/departments/:id`: 404 for an unknown id, else 200.  The
      new name is not checked against the other departments' names. */
  method UpdateDepartment(db: Store, id: Id, f: DepartmentFields) returns (r: Reply<Entry<Department>>)
    requires db.Valid()
    modifies db
    ensures db.Valid()
    ensures id !in old(db.departments) ==>
      r == Reply(NOT_FOUND, Failure("Department not found")) && db.departments == old(db.departments)
    ensures id in old(db.departments) ==>
      && r.status == OK && r.body.success && r.body.message == Some("Department updated successfully")
      && r.body.data == Some(Entry(id, PatchDepartment(old(db.departments)[id], f)))
      && db.departments == old(db.departments)[id := PatchDepartment(old(db.departments)[id], f)]
    ensures db.employees == old(db.employees)
    ensures Integrity(old(db.departments), old(db.employees)) ==> Integrity(db.departments, db.employees)
  {
    var updated := db.UpdateDepartment(id, f);
    if updated.None? {
      return Reply(NOT_FOUND, Failure("Department not found"));
    }
    r := Reply(OK, Single(Some("Department updated successfully"), updated.value));
  }

  /** `DELETE /api/departments/:id`: 404 for an unknown id, 400 while an
      employee references the department, else 200. */
  method DeleteDepartment(db: Store, id: Id) returns (r: Reply<()>)
    requires db.Valid()
    modifies db
    ensures db.Valid()
    ensures id !in old(db.departments) ==>
      r == Reply(NOT_FOUND, Failure("Department not found")) && db.departments == old(db.departments)
    ensures id in old(db.departments) && CountEmployeesIn(old(db.employees), id) > 0 ==>
      && r == Reply(BAD_REQUEST, Failure("Cannot delete department with assigned employees"))
      && db.departments == old(db.departments)
    ensures id in old(db.departments) && CountEmployeesIn(old(db.employees), id) == 0 ==>
      r == Reply(OK, Done("Department deleted successfully")) && db.departments == old(db.departments) - {id}
    ensures db.employees == old(db.employees)
    ensures Integrity(old(db.departments), old(db.employees)) ==> Integrity(db.departments, db.employees)
  {
    if FindById(db.departments, id).None? {
      return Reply(NOT_FOUND, Failure("Department not found"));
    }
    if CountEmployeesIn(db.employees, id) > 0 {
      return Reply(BAD_REQUEST, Failure("Cannot delete department with assigned employees"));
    }
    ghost var before := db.departments;
    db.RemoveDepartment(id);
    if Integrity(before, db.employees) {
      RemoveUnreferenced(before, db.employees, id);
    }
    r := Reply(OK, Done("Department deleted successfully"));
  }

  /** `GET /api/departments/:id/employees`: the employees that reference
      `id`, in natural order, with the department's name. */
  function GetDepartmentEmployees(db: Store, id: Id): (r: Reply<seq<EmployeeView>>)
    reads db
    ensures r.status == OK && r.body.success && r.body.data.Some? && r.body.count == Some(|r.body.data.value|)
    ensures |r.body.data.value| == CountEmployeesIn(db.employees, id)
    ensures forall v :: v in r.body.data.value <==>
      IsViewOf(db.departments, db.employees, NameOnly, v) && v.employee.department == id
  {
    EmployeesWhereSpec(db.departments, db.employees, InDepartment(id), NameOnly);
    CountIsMatching(db.employees, id);
    Reply(OK, Listing(EmployeesWhere(db.departments, db.employees, InDepartment(id), NameOnly)))
  }
}
