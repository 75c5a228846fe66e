/** The employee service: the employee operations as the domain layer runs
    them.  Unlike the HTTP handlers it never checks that the department an
    employee names exists. */
module EmployeeService {
  import opened Envelope
  import opened Text
  import opened Lists
  import opened EmployeeModel
  import opened Database

  /** `getAllEmployees`: every employee once, in (lastName, firstName)
      order, with the department's name and description. */
  function GetAllEmployees(db: Store): (r: Result<seq<EmployeeView>>)
    reads db
    ensures r.success && r.message.None? && r.data.Some? && r.count == Some(|r.data.value|)
    ensures Sorted(r.data.value, ViewKey)
    ensures |r.data.value| == |db.employees|
    ensures forall v :: v in r.data.value <==> IsViewOf(db.departments, db.employees, NameAndDescription, v)
  {
    EmployeesWhereSortedSpec(db.departments, db.employees, Everyone(), NameAndDescription);
    EveryoneMatches(db.employees);
    Listing(EmployeesWhereSorted(db.departments, db.employees, Everyone(), NameAndDescription))
  }

  /** `getEmployeeById`. */
  function GetEmployeeById(db: Store, id: Id): (r: Result<EmployeeView>)
    reads db
    ensures r.success <==> id in db.employees
    ensures r.success ==> && r.message.None? && r.data.Some? && r.data.value.id == id
                          && IsViewOf(db.departments, db.employees, NameAndDescription, r.data.value)
    ensures !r.success ==> r == Failure("Employee not found")
  {
    var found := FindById(db.employees, id);
    if found.None? then Failure("Employee not found")
    else Single(None, View(db.departments, found.value, NameAndDescription))
  }

  /** `getEmployeesByDepartment`: the employees that reference `d`, in
      (lastName, firstName) order.  It succeeds for any id. */
  function GetEmployeesByDepartment(db: Store, d: Id): (r: Result<seq<EmployeeView>>)
    reads db
    ensures r.success && r.message.None? && r.data.Some? && r.count == Some(|r.data.value|)
    ensures Sorted(r.data.value, ViewKey)
    ensures |r.data.value| == CountEmployeesIn(db.employees, d)
    ensures forall v :: v in r.data.value <==>
      IsViewOf(db.departments, db.employees, NameAndDescription, v) && v.employee.department == d
  {
    EmployeesWhereSortedSpec(db.departments, db.employees, InDepartment(d), NameAndDescription);
    CountIsMatching(db.employees, d);
    Listing(EmployeesWhereSorted(db.departments, db.employees, InDepartment(d), NameAndDescription))
  }

  /** `searchEmployees`: the employees whose first or last name contains
      the term, ignoring case, in natural order. */
  function SearchEmployees(db: Store, term: string): (r: Result<seq<EmployeeView>>)
    requires IsRegexLiteral(term)
    reads db
    ensures r.success && r.message.None? && r.data.Some? && r.count == Some(|r.data.value|)
    ensures |r.data.value| == |Matching(db.employees, NameMatches(term))|
    ensures forall v :: v in r.data.value <==>
      && IsViewOf(db.departments, db.employees, NameAndDescription, v)
      && (ContainsIgnoringCase(v.employee.firstName, term) || ContainsIgnoringCase(v.employee.lastName, term))
  {
    EmployeesWhereSpec(db.departments, db.employees, NameMatches(term), NameAndDescription);
    Listing(EmployeesWhere(db.departments, db.employees, NameMatches(term), NameAndDescription))
  }

  /** The search does not depend on the case of the term. */
  lemma SearchIgnoresCase(db: Store, term: string)
    requires IsRegexLiteral(term)
    ensures IsRegexLiteral(Upper(term))
    ensures SearchEmployees(db, Upper(term)) == SearchEmployees(db, term)
  {
    UpperRegexLiteral(term);
    var s := Entries(db.employees);
    forall i | 0 <= i < |s|
      ensures NameMatches(Upper(term))(s[i]) == NameMatches(term)(s[i])
    {
      ContainsIgnoringCaseUpper(s[i].value.firstName, term);
      ContainsIgnoringCaseUpper(s[i].value.lastName, term);
    }
    FilterCongruent(s, NameMatches(Upper(term)), NameMatches(term));
  }

  /** The empty term matches every employee. */
  lemma SearchEmptyTerm(db: Store)
    ensures IsRegexLiteral("")
    ensures var r := SearchEmployees(db, "").data.value;
      |r| == |db.employees| && forall v :: v in r <==> IsViewOf(db.departments, db.employees, NameAndDescription, v)
  {
    var s := Entries(db.employees);
    forall i | 0 <= i < |s|
      ensures NameMatches("")(s[i])
    {
      ContainsEmpty(Lower(s[i].value.firstName));
    }
    FilterAll(s, NameMatches(""));
    EmployeesWhereSpec(db.departments, db.employees, Everyone(), NameAndDescription);
    FilterAll(s, Everyone());
    EveryoneMatches(db.employees);
  }

  /** `createEmployee`: checks that the required fields are truthy, then
      saves a new record; the schema's validation throws when a name is
      blank once trimmed.  The department is not checked. */
  method CreateEmployee(db: Store, body: Fields) returns (r: Outcome<EmployeeView>)
    requires db.Valid()
    modifies db
    ensures db.Valid()
    ensures db.departments == old(db.departments)
    ensures !HasRequired(body) ==>
      r == Returned(Failure("First name, last name, and department are required")) && db.employees == old(db.employees)
    ensures HasRequired(body) && Construct(CreateFields(body)).None? ==>
      r == Threw("Error creating employee") && db.employees == old(db.employees)
    ensures HasRequired(body) && Construct(CreateFields(body)).Some? ==>
      && r.Returned? && r.result.success && r.result.message == Some("Employee created successfully")
      && r.result.data.Some?
      && r.result.data.value.id !in old(db.employees)
      && r.result.data.value.employee == Construct(CreateFields(body)).value
      && db.employees == old(db.employees)[r.result.data.value.id := r.result.data.value.employee]
      && IsViewOf(db.departments, db.employees, NameAndDescription, r.result.data.value)
    ensures Integrity(old(db.departments), old(db.employees)) && body.department.Some? && body.department.value in db.departments ==>
      Integrity(db.departments, db.employees)
  {
    if !HasRequired(body) {
      return Returned(Failure("First name, last name, and department are required"));
    }
    var saved := db.InsertEmployee(CreateFields(body));
    if saved.None? {
      return Threw("Error creating employee");
    }
    r := Returned(Single(Some("Employee created successfully"), View(db.departments, saved.value, NameAndDescription)));
  }

  /** `updateEmployee`: a partial update with the validators on.  The
      department is not checked. */
  method UpdateEmployee(db: Store, id: Id, body: Fields) returns (r: Outcome<EmployeeView>)
    requires db.Valid()
    modifies db
    ensures db.Valid()
    ensures db.departments == old(db.departments)
    ensures !PatchValid(body) ==> r == Threw("Error updating employee") && db.employees == old(db.employees)
    ensures PatchValid(body) && id !in old(db.employees) ==>
      r == Returned(Failure("Employee not found")) && db.employees == old(db.employees)
    ensures PatchValid(body) && id in old(db.employees) ==>
      && r.Returned? && r.result.success && r.result.message == Some("Employee updated successfully")
      && r.result.data.Some? && r.result.data.value.id == id
      && r.result.data.value.employee == Patch(old(db.employees)[id], body)
      && db.employees == old(db.employees)[id := r.result.data.value.employee]
      && IsViewOf(db.departments, db.employees, NameAndDescription, r.result.data.value)
    ensures Integrity(old(db.departments), old(db.employees)) && (body.department.None? || body.department.value in db.departments) ==>
      Integrity(db.departments, db.employees)
  {
    var outcome := db.UpdateEmployee(id, body);
    match outcome
    case Invalid =>
      r := Threw("Error updating employee");
    case Missing =>
      r := Returned(Failure("Employee not found"));
    case Updated(e) =>
      r := Returned(Single(Some("Employee updated successfully"), View(db.departments, e, NameAndDescription)));
  }

  /** `deleteEmployee`. */
  method DeleteEmployee(db: Store, id: Id) returns (r: Result<()>)
    requires db.Valid()
    modifies db
    ensures db.Valid()
    ensures r.success <==> id in old(db.employees)
    ensures r.success ==> r == Done("Employee deleted successfully")
    ensures !r.success ==> r == Failure("Employee not found")
    ensures db.employees == old(db.employees) - {id}
    ensures db.departments == old(db.departments)
    ensures Integrity(old(db.departments), old(db.employees)) ==> Integrity(db.departments, db.employees)
  {
    var removed := db.RemoveEmployee(id);
    if removed.None? {
      return Failure("Employee not found");
    }
    r := Done("Employee deleted successfully");
  }
}
