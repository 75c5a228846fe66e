/** The department service: the department operations as the domain layer
    runs them, each returning a `{ success, message, data, count }` result. */
module DepartmentService {
  import opened Envelope
  import opened Lists
  import opened Database

  /** `getAllDepartments`: every department once, ordered by name. */
  function GetAllDepartments(db: Store): (r: Result<seq<Entry<Department>>>)
    reads db
    ensures r.success && r.message.None? && r.data.Some? && r.count == Some(|r.data.value|)
    ensures Sorted(r.data.value, NameKey)
    ensures |r.data.value| == |db.departments|
    ensures forall d :: d in r.data.value <==> d.id in db.departments && db.departments[d.id] == d.value
  {
    DepartmentsByNameSpec(db.departments);
    Listing(DepartmentsByName(db.departments))
  }

  /** `getDepartmentById`. */
  function GetDepartmentById(db: Store, id: Id): (r: Result<Entry<Department>>)
    reads db
    ensures r.success <==> id in db.departments
    ensures r.success ==> r.data == Some(Entry(id, db.departments[id])) && r.message.None?
    ensures !r.success ==> r == Failure("Department not found")
  {
    var found := FindById(db.departments, id);
    if found.None? then Failure("Department not found") else Single(None, found.value)
  }

  /** `createDepartment`: refused when some department already has the
      name; otherwise one new department with a fresh id. */
  method CreateDepartment(db: Store, name: string, description: Option<string>) returns (r: Result<Entry<Department>>)
    requires db.Valid()
    modifies db
    ensures db.Valid()
    ensures r.success <==> !HasDepartmentNamed(old(db.departments), name)
    ensures !r.success ==> r == Failure("Department already exists") && db.departments == old(db.departments)
    ensures r.success ==>
      && r.message == Some("Department created successfully") && r.data.Some?
      && r.data.value.id !in old(db.departments)
      && r.data.value.value == Department(name, description)
      && db.departments == old(db.departments)[r.data.value.id := r.data.value.value]
    ensures db.employees == old(db.employees)
    ensures UniqueNames(old(db.departments)) ==> UniqueNames(db.departments)
    ensures Integrity(old(db.departments), old(db.employees)) ==> Integrity(db.departments, db.employees)
  {
    if HasDepartmentNamed(db.departments, name) {
      return Failure("Department already exists");
    }
    var d := Department(name, description);
    var id := db.InsertDepartment(d);
    r := Single(Some("Department created successfully"), Entry(id, d));
  }

  /** `getDepartmentEmployees`: the employees that reference `id`, with the
      department's name attached.  It succeeds for any id, also one no
      department has. */
  function GetDepartmentEmployees(db: Store, id: Id): (r: Result<seq<EmployeeView>>)
    reads db
    ensures r.success && r.data.Some? && r.count == Some(|r.data.value|)
    ensures forall v :: v in r.data.value <==>
      IsViewOf(db.departments, db.employees, NameOnly, v) && v.employee.department == id
    ensures |r.data.value| == CountEmployeesIn(db.employees, id)
  {
    EmployeesWhereSpec(db.departments, db.employees, InDepartment(id), NameOnly);
    CountIsMatching(db.employees, id);
    Listing(EmployeesWhere(db.departments, db.employees, InDepartment(id), NameOnly))
  }

  /** `updateDepartment`: a partial update of one department.  The new
      name is not checked against the other departments' names. */
  method UpdateDepartment(db: Store, id: Id, f: DepartmentFields) returns (r: Result<Entry<Department>>)
    requires db.Valid()
    modifies db
    ensures db.Valid()
    ensures r.success <==> id in old(db.departments)
    ensures !r.success ==> r == Failure("Department not found") && db.departments == old(db.departments)
    ensures r.success ==>
      && r.message == Some("Department updated successfully")
      && r.data == Some(Entry(id, PatchDepartment(old(db.departments)[id], f)))
      && db.departments == old(db.departments)[id := PatchDepartment(old(db.departments)[id], f)]
    ensures db.employees == old(db.employees)
    ensures Integrity(old(db.departments), old(db.employees)) ==> Integrity(db.departments, db.employees)
  {
    var updated := db.UpdateDepartment(id, f);
    if updated.None? {
      return Failure("Department not found");
    }
    r := Single(Some("Department updated successfully"), updated.value);
  }

  /** `deleteDepartment`: refused for an unknown id and for a department
      some employee references; otherwise it removes that department. */
  method DeleteDepartment(db: Store, id: Id) returns (r: Result<()>)
    requires db.Valid()
    modifies db
    ensures db.Valid()
    ensures id !in old(db.departments) ==>
      r == Failure("Department not found") && db.departments == old(db.departments)
    ensures id in old(db.departments) && CountEmployeesIn(old(db.employees), id) > 0 ==>
      r == Failure("Cannot delete department with assigned employees") && db.departments == old(db.departments)
    ensures id in old(db.departments) && CountEmployeesIn(old(db.employees), id) == 0 ==>
      r == Done("Department deleted successfully") && db.departments == old(db.departments) - {id}
    ensures db.employees == old(db.employees)
    ensures Integrity(old(db.departments), old(db.employees)) ==> Integrity(db.departments, db.employees)
  {
    if FindById(db.departments, id).None? {
      return Failure("Department not found");
    }
    if CountEmployeesIn(db.employees, id) > 0 {
      return Failure("Cannot delete department with assigned employees");
    }
    ghost var before := db.departments;
    db.RemoveDepartment(id);
    if Integrity(before, db.employees) {
      RemoveUnreferenced(before, db.employees, id);
    }
    r := Done("Department deleted successfully");
  }
}
