/** The browser client's own logic: the search box and the department
    filter over the cached employee list, the per-department employee
    badge, and the checks the forms make before they send a request.  The
    cached list is what `GET /api/employees` returned. */
module Client {
  import opened Envelope
  import opened Text
  import opened Lists
  import opened EmployeeModel
  import opened Database
  import EmployeeController

  // ---------------------------------------------------------------
  // Search and filter
  // ---------------------------------------------------------------

  /** The search box's test on one row. */
  function MatchesTerm(term: string): EmployeeView -> bool
  {
    (v: EmployeeView) => ContainsIgnoringCase(v.employee.firstName, term) || ContainsIgnoringCase(v.employee.lastName, term)
  }

  /** `e.department?._id === d`: false for a row whose department did not
      populate. */
  function RefersTo(d: Id): EmployeeView -> bool
  {
    (v: EmployeeView) => v.department.Some? && v.department.value.id == d
  }

  /** Every name contains the empty term. */
  lemma MatchesEmptyTerm(employees: seq<EmployeeView>)
    ensures forall i :: 0 <= i < |employees| ==> MatchesTerm("")(employees[i])
  {
    forall i | 0 <= i < |employees|
      ensures MatchesTerm("")(employees[i])
    {
      ContainsEmpty(Lower(employees[i].employee.firstName));
    }
  }

  /** `searchEmployees(term)`: the rows it renders.  The empty-term shortcut
      renders what the filter would; the rows kept are, in their order and
      with their multiplicity, those whose first or last name contains the
      term ignoring case. */
  function SearchEmployees(employees: seq<EmployeeView>, term: string): (r: seq<EmployeeView>)
    ensures term == "" ==> r == employees
    ensures r == Filter(employees, MatchesTerm(term))
    ensures IsSubsequence(r, employees)
    ensures
      forall v :: multiset(r)[v] ==
        (if ContainsIgnoringCase(v.employee.firstName, term) || ContainsIgnoringCase(v.employee.lastName, term)
         then multiset(employees)[v] else 0)
    ensures forall v :: v in r <==>
      v in employees && (ContainsIgnoringCase(v.employee.firstName, term) || ContainsIgnoringCase(v.employee.lastName, term))
  {
    var p := MatchesTerm(term);
    FilterIsSubsequence(employees, p);
    FilterMultiset(employees, p);
    if term == "" then
      MatchesEmptyTerm(employees);
      FilterAll(employees, p);
      employees
    else
      Filter(employees, p)
  }

  /** `filterByDepartment(value)`; `None` is the empty selection, which
      keeps every row.  Otherwise the rows kept are, in their order and with
      their multiplicity, those whose populated department is the selected
      one. */
  function FilterByDepartment(employees: seq<EmployeeView>, selected: Option<Id>): (r: seq<EmployeeView>)
    ensures selected.None? ==> r == employees
    ensures selected.Some? ==> IsSubsequence(r, employees)
    ensures selected.Some? ==>
      forall v :: multiset(r)[v] ==
        (if v.department.Some? && v.department.value.id == selected.value then multiset(employees)[v] else 0)
    ensures selected.Some? ==> forall v :: v in r <==>
      v in employees && v.department.Some? && v.department.value.id == selected.value
  {
    if selected.None? then employees
    else
      var p := RefersTo(selected.value);
      FilterIsSubsequence(employees, p);
      FilterMultiset(employees, p);
      Filter(employees, p)
  }

  /** The `empCount` badge of a department row: the number of rows the
      department filter shows, zero exactly when no row is populated with
      that department. */
  function DepartmentEmployeeCount(employees: seq<EmployeeView>, d: Id): (r: nat)
    ensures r == |FilterByDepartment(employees, Some(d))|
    ensures r <= |employees|
    ensures r == 0 <==>
      forall i :: 0 <= i < |employees| ==> !(employees[i].department.Some? && employees[i].department.value.id == d)
  {
    FilterNone(employees, RefersTo(d));
    |Filter(employees, RefersTo(d))|
  }

  /** Typing the term in capitals finds the same rows. */
  lemma SearchIgnoresCase(employees: seq<EmployeeView>, term: string)
    ensures SearchEmployees(employees, Upper(term)) == SearchEmployees(employees, term)
  {
    forall i | 0 <= i < |employees|
      ensures MatchesTerm(Upper(term))(employees[i]) == MatchesTerm(term)(employees[i])
    {
      ContainsIgnoringCaseUpper(employees[i].employee.firstName, term);
      ContainsIgnoringCaseUpper(employees[i].employee.lastName, term);
    }
    FilterCongruent(employees, MatchesTerm(Upper(term)), MatchesTerm(term));
  }

  /** For an existing department `d`, populating and then keeping the rows
      of `d` is keeping the records of `d` and then populating. */
  lemma {:induction false} PopulateThenFilter(depts: map<Id, Department>, s: seq<Entry<Employee>>, d: Id, p: Projection)
    requires d in depts
    ensures Filter(Populate(depts, s, p), RefersTo(d)) == Populate(depts, Filter(s, InDepartment(d)), p)
  {
    if s != [] {
      PopulateThenFilter(depts, s[1..], d, p);
      var v := Populate(depts, s, p);
      assert v[1..] == Populate(depts, s[1..], p);
    }
  }

  lemma MultisetEqual<T>(a: multiset<T>, b: multiset<T>)
    requires forall x :: a[x] == b[x]
    ensures a == b
  {
  }

  /** Two lists holding the same elements keep as many under any filter. */
  lemma FilterSameCount<T>(s: seq<T>, t: seq<T>, p: T -> bool)
    requires multiset(s) == multiset(t)
    ensures |Filter(s, p)| == |Filter(t, p)|
  {
    FilterMultiset(s, p);
    FilterMultiset(t, p);
    var a, b := multiset(Filter(s, p)), multiset(Filter(t, p));
    MultisetEqual(a, b);
    assert |a| == |Filter(s, p)| && |b| == |Filter(t, p)|;
  }

  /** The sorted listing of all records holds as many records of
      department `d` as the store. */
  lemma ListingCount(emps: map<Id, Employee>, d: Id)
    ensures |Filter(SortBy(Select(emps, Everyone()), EmployeeKey), InDepartment(d))| == CountEmployeesIn(emps, d)
  {
    var all := Select(emps, Everyone());
    FilterSameCount(SortBy(all, EmployeeKey), all, InDepartment(d));
    FilterAll(Entries(emps), Everyone());
    SelectCount(emps, InDepartment(d));
    CountIsMatching(emps, d);
  }

  /** On a fresh employee list, the badge of an existing department is the
      count the server checks before it deletes that department, so the
      client refuses exactly the deletes the server would refuse with 400
      (whether or not referential integrity holds elsewhere). */
  lemma CountMatchesServer(db: Store, d: Id)
    requires d in db.departments
    ensures DepartmentEmployeeCount(EmployeeController.GetAllEmployees(db).body.data.value, d) == CountEmployeesIn(db.employees, d)
  {
    var t := SortBy(Select(db.employees, Everyone()), EmployeeKey);
    PopulateThenFilter(db.departments, t, d, NameOnly);
    ListingCount(db.employees, d);
  }

  /** No row of a fresh employee list is populated with a department that
      does not exist, so its badge is zero. */
  lemma CountOfMissingDepartment(db: Store, d: Id)
    requires d !in db.departments
    ensures DepartmentEmployeeCount(EmployeeController.GetAllEmployees(db).body.data.value, d) == 0
  {
    var rows := EmployeeController.GetAllEmployees(db).body.data.value;
    var t := SortBy(Select(db.employees, Everyone()), EmployeeKey);
    assert rows == Populate(db.departments, t, NameOnly);
    forall i | 0 <= i < |rows|
      ensures !(rows[i].department.Some? && rows[i].department.value.id == d)
    {
      assert rows[i] == View(db.departments, t[i], NameOnly);
    }
  }

  // ---------------------------------------------------------------
  // Form checks
  // ---------------------------------------------------------------

  datatype AlertKind = Error | Warning | Success

  /** A `showAlert(message, kind)` banner. */
  datatype Alert = Alert(message: string, kind: AlertKind)

  /** The requests the forms send. */
  datatype Request =
    | PostEmployee(body: Fields)
    | PutEmployee(id: Id, body: Fields)
    | PostDepartment(name: string, description: Option<string>)
    | PutDepartment(id: Id, fields: DepartmentFields)
    | DeleteDepartmentRequest(id: Id)

  /** What a form handler does: refuse with an alert, stop at a declined
      confirmation, or send a request. */
  datatype Action = Blocked(alert: Alert) | Cancelled | Send(request: Request)

  /** The employee form's fields; `employeeId` is set when editing and the
      department select's empty option is `None`. */
  datatype EmployeeForm = EmployeeForm(
    employeeId: Option<Id>,
    firstName: string,
    lastName: string,
    department: Option<Id>,
    email: string,
    phone: string)

  /** The department form's fields. */
  datatype DepartmentForm = DepartmentForm(departmentId: Option<Id>, name: string, description: string)

  /** The body `saveEmployee` sends. */
  function EmployeeBody(f: EmployeeForm): Fields
  {
    Fields(Some(f.firstName), Some(f.lastName), f.department, Some(f.email), Some(f.phone), None)
  }

  /** `saveEmployee`: refuses an empty first name, last name or department,
      else sends a PUT when editing and a POST otherwise. */
  function SaveEmployee(f: EmployeeForm): (r: Action)
    ensures r.Blocked? <==> f.firstName == "" || f.lastName == "" || f.department.None?
    ensures r.Blocked? ==> r.alert == Alert("Please fill in all required fields", Error)
    ensures r.Send? ==> (r.request.PostEmployee? || r.request.PutEmployee?) && HasRequired(r.request.body)
    ensures r.Send? ==> r.request == (if f.employeeId.Some? then PutEmployee(f.employeeId.value, EmployeeBody(f)) else PostEmployee(EmployeeBody(f)))
    ensures !r.Cancelled?
  {
    if f.firstName == "" || f.lastName == "" || f.department.None? then
      Blocked(Alert("Please fill in all required fields", Error))
    else if f.employeeId.Some? then
      Send(PutEmployee(f.employeeId.value, EmployeeBody(f)))
    else
      Send(PostEmployee(EmployeeBody(f)))
  }

  /** The client's check is the server's check on the body it would send. */
  lemma SaveEmployeeAgreesWithServer(f: EmployeeForm)
    ensures SaveEmployee(f).Send? <==> HasRequired(EmployeeBody(f))
  {
  }

  /** `saveDepartment`: refuses an empty name, else sends a PUT when editing
      and a POST otherwise. */
  function SaveDepartment(f: DepartmentForm): (r: Action)
    ensures r.Blocked? <==> f.name == ""
    ensures r.Blocked? ==> r.alert == Alert("Department name is required", Error)
    ensures r.Send? && f.departmentId.Some? ==>
      r.request == PutDepartment(f.departmentId.value, DepartmentFields(Some(f.name), Some(f.description)))
    ensures r.Send? && f.departmentId.None? ==> r.request == PostDepartment(f.name, Some(f.description))
    ensures !r.Cancelled?
  {
    if f.name == "" then
      Blocked(Alert("Department name is required", Error))
    else if f.departmentId.Some? then
      Send(PutDepartment(f.departmentId.value, DepartmentFields(Some(f.name), Some(f.description))))
    else
      Send(PostDepartment(f.name, Some(f.description)))
  }

  /** The warning `deleteDepartment` shows for `n` assigned employees. */
  function DeleteWarning(n: nat): string
  {
    "Cannot delete department with " + DecimalString(n) + " assigned employee(s). Please reassign or delete these employees first."
  }

  /** `deleteDepartment(id)`: refuses while a cached row is populated with
      the department, then asks for confirmation (`confirmed` is the
      answer), then sends the DELETE. */
  function DeleteDepartment(employees: seq<EmployeeView>, d: Id, confirmed: bool): (r: Action)
    ensures r.Blocked? <==> DepartmentEmployeeCount(employees, d) > 0
    ensures r.Blocked? ==> r.alert == Alert(DeleteWarning(DepartmentEmployeeCount(employees, d)), Warning)
    ensures r.Cancelled? <==> DepartmentEmployeeCount(employees, d) == 0 && !confirmed
    ensures r.Send? ==> r.request == DeleteDepartmentRequest(d)
  {
    var n := DepartmentEmployeeCount(employees, d);
    if n > 0 then Blocked(Alert(DeleteWarning(n), Warning))
    else if !confirmed then Cancelled
    else Send(DeleteDepartmentRequest(d))
  }
}
