/** The document store the services and handlers share: a Department and
    an Employee collection, the queries run against them, and the writes
    (`save`, `findByIdAndUpdate`, `deleteOne`, `findByIdAndDelete`). */
module Database {
  import opened Envelope
  import opened Text
  import opened Lists
  import opened EmployeeModel

  /** A department record.  Its schema file is not part of this model; the
      code reads and writes `name` and `description`, and declares no
      unique index on `name`. */
  datatype Department = Department(name: string, description: Option<string>)

  /** The fields a department create or update supplies. */
  datatype DepartmentFields = DepartmentFields(name: Option<string>, description: Option<string>)

  /** `findByIdAndUpdate(id, fields)` on one department: each supplied
      field replaces the stored one, so an empty update changes nothing and
      a full one gives the department a create with those fields would. */
  function PatchDepartment(d: Department, f: DepartmentFields): (r: Department)
    ensures f == DepartmentFields(None, None) ==> r == d
    ensures f.name.Some? && f.description.Some? ==> r == Department(f.name.value, f.description)
    ensures r.name == d.name || Some(r.name) == f.name
  {
    Department(
      if f.name.Some? then f.name.value else d.name,
      if f.description.Some? then f.description else d.description)
  }

  // ---------------------------------------------------------------
  // The invariants the business rules are meant to keep
  // ---------------------------------------------------------------

  /** Referential integrity: every employee's department exists. */
  predicate Integrity(depts: map<Id, Department>, emps: map<Id, Employee>)
  {
    forall id :: id in emps ==> emps[id].department in depts
  }

  /** No two departments share a name. */
  predicate UniqueNames(depts: map<Id, Department>)
  {
    forall a, b :: a in depts && b in depts && depts[a].name == depts[b].name ==> a == b
  }

  /** `findOne({name})` finds a document. */
  predicate HasDepartmentNamed(depts: map<Id, Department>, name: string)
  {
    exists id | id in depts :: depts[id].name == name
  }

  /** The employees that reference department `d`. */
  function ReferencingIds(emps: map<Id, Employee>, d: Id): set<Id>
  {
    set id | id in emps && emps[id].department == d
  }

  /** `Employee.countDocuments({department: d})`. */
  function CountEmployeesIn(emps: map<Id, Employee>, d: Id): nat
  {
    |ReferencingIds(emps, d)|
  }

  /** No employee references a department the count finds empty, so
      removing that department cannot break referential integrity. */
  lemma RemoveUnreferenced(depts: map<Id, Department>, emps: map<Id, Employee>, d: Id)
    requires Integrity(depts, emps) && CountEmployeesIn(emps, d) == 0
    ensures Integrity(depts - {d}, emps)
  {
    assert ReferencingIds(emps, d) == {};
    forall id | id in emps
      ensures emps[id].department in depts - {d}
    {
      assert id !in ReferencingIds(emps, d);
    }
  }

  // ---------------------------------------------------------------
  // Populated employees
  // ---------------------------------------------------------------

  /** Which department paths a `populate` selects. */
  datatype Projection = NameOnly | NameAndDescription

  /** What `populate` puts in place of the department id. */
  datatype DepartmentRef = DepartmentRef(id: Id, name: string, description: Option<string>)

  /** An employee as a query returns it.  `department` is `None` when the
      reference dangles: `populate` then yields null. */
  datatype EmployeeView = EmployeeView(id: Id, employee: Employee, department: Option<DepartmentRef>)

  function Ref(depts: map<Id, Department>, id: Id, p: Projection): Option<DepartmentRef>
  {
    if id in depts then
      Some(DepartmentRef(id, depts[id].name, if p == NameAndDescription then depts[id].description else None))
    else None
  }

  function View(depts: map<Id, Department>, e: Entry<Employee>, p: Projection): EmployeeView
  {
    EmployeeView(e.id, e.value, Ref(depts, e.value.department, p))
  }

  /** `populate('department', p)` applied to a query result. */
  function Populate(depts: map<Id, Department>, s: seq<Entry<Employee>>, p: Projection): (r: seq<EmployeeView>)
    ensures |r| == |s|
    ensures forall i :: 0 <= i < |s| ==> r[i] == View(depts, s[i], p)
  {
    if s == [] then [] else [View(depts, s[0], p)] + Populate(depts, s[1..], p)
  }

  /** `v` is employee `v.id` of `emps`, with its department populated from
      `depts`. */
  predicate IsViewOf(depts: map<Id, Department>, emps: map<Id, Employee>, p: Projection, v: EmployeeView)
  {
    v.id in emps && v.employee == emps[v.id] && v.department == Ref(depts, v.employee.department, p)
  }

  // ---------------------------------------------------------------
  // Queries
  // ---------------------------------------------------------------

  /** The sort `{name: 1}`. */
  function NameKey(d: Entry<Department>): SortKey
  {
    [d.value.name]
  }

  /** The sort `{lastName: 1, firstName: 1}`, on a stored employee ... */
  function EmployeeKey(e: Entry<Employee>): SortKey
  {
    [e.value.lastName, e.value.firstName]
  }

  /** ... and on a returned one. */
  function ViewKey(v: EmployeeView): SortKey
  {
    [v.employee.lastName, v.employee.firstName]
  }

  /** The filter `{}`. */
  function Everyone(): Entry<Employee> -> bool
  {
    (e: Entry<Employee>) => true
  }

  /** The filter `{department: d}`. */
  function InDepartment(d: Id): Entry<Employee> -> bool
  {
    (e: Entry<Employee>) => e.value.department == d
  }

  /** The search filter: the term occurs in the first or the last name,
      ignoring case. */
  function NameMatches(term: string): Entry<Employee> -> bool
  {
    (e: Entry<Employee>) => ContainsIgnoringCase(e.value.firstName, term) || ContainsIgnoringCase(e.value.lastName, term)
  }

  /** `Department.find().sort({name: 1})`. */
  function DepartmentsByName(depts: map<Id, Department>): seq<Entry<Department>>
  {
    SortBy(Entries(depts), NameKey)
  }

  /** `Employee.find(q).populate('department', p)`. */
  function EmployeesWhere(depts: map<Id, Department>, emps: map<Id, Employee>, q: Entry<Employee> -> bool, p: Projection): seq<EmployeeView>
  {
    Populate(depts, Select(emps, q), p)
  }

  /** `Employee.find(q).populate('department', p).sort({lastName: 1, firstName: 1})`. */
  function EmployeesWhereSorted(depts: map<Id, Department>, emps: map<Id, Employee>, q: Entry<Employee> -> bool, p: Projection): seq<EmployeeView>
  {
    Populate(depts, SortBy(Select(emps, q), EmployeeKey), p)
  }

  /** The department listing holds every department once, ordered by name. */
  lemma DepartmentsByNameSpec(depts: map<Id, Department>)
    ensures var r := DepartmentsByName(depts);
      && Sorted(r, NameKey)
      && |r| == |depts|
      && (forall d :: d in r <==> d.id in depts && depts[d.id] == d.value)
  {
    var all := Entries(depts);
    EntriesListsAll(depts);
    var r := DepartmentsByName(depts);
    forall d
      ensures d in r <==> d.id in depts && depts[d.id] == d.value
    {
      assert d in r <==> d in multiset(r);
      assert d in all <==> d in multiset(all);
      if d in all {
        var i :| 0 <= i < |all| && all[i] == d;
      }
    }
  }

  /** Populating keeps the order of the sort fields. */
  lemma PopulateSorted(depts: map<Id, Department>, s: seq<Entry<Employee>>, p: Projection)
    requires Sorted(s, EmployeeKey)
    ensures Sorted(Populate(depts, s, p), ViewKey)
  {
    var r := Populate(depts, s, p);
    forall i, j | 0 <= i < j < |r|
      ensures KeyLe(ViewKey(r[i]), ViewKey(r[j]))
    {
      assert ViewKey(r[i]) == EmployeeKey(s[i]) && ViewKey(r[j]) == EmployeeKey(s[j]);
    }
  }

  /** Populating a list of stored employees yields exactly their views. */
  lemma PopulateMembers(depts: map<Id, Department>, emps: map<Id, Employee>, s: seq<Entry<Employee>>, p: Projection)
    requires forall i :: 0 <= i < |s| ==> s[i].id in emps && emps[s[i].id] == s[i].value
    ensures forall v :: v in Populate(depts, s, p) <==> IsViewOf(depts, emps, p, v) && Entry(v.id, v.employee) in s
  {
    var r := Populate(depts, s, p);
    forall v
      ensures v in r <==> IsViewOf(depts, emps, p, v) && Entry(v.id, v.employee) in s
    {
      if v in r {
        var i :| 0 <= i < |r| && r[i] == v;
        assert v == View(depts, s[i], p);
      }
      if IsViewOf(depts, emps, p, v) && Entry(v.id, v.employee) in s {
        var i :| 0 <= i < |s| && s[i] == Entry(v.id, v.employee);
        assert r[i] == v;
      }
    }
  }

  /** An unsorted employee query returns, once each, exactly the employees
      that satisfy the filter, populated. */
  lemma EmployeesWhereSpec(depts: map<Id, Department>, emps: map<Id, Employee>, q: Entry<Employee> -> bool, p: Projection)
    ensures var r := EmployeesWhere(depts, emps, q, p);
      && |r| == |Matching(emps, q)|
      && (forall v :: v in r <==> IsViewOf(depts, emps, p, v) && q(Entry(v.id, v.employee)))
  {
    var s := Select(emps, q);
    SelectSound(emps, q);
    SelectComplete(emps, q);
    SelectCount(emps, q);
    PopulateMembers(depts, emps, s, p);
  }

  /** A sorted employee query returns the same employees, ordered by
      (lastName, firstName). */
  lemma EmployeesWhereSortedSpec(depts: map<Id, Department>, emps: map<Id, Employee>, q: Entry<Employee> -> bool, p: Projection)
    ensures var r := EmployeesWhereSorted(depts, emps, q, p);
      && Sorted(r, ViewKey)
      && |r| == |Matching(emps, q)|
      && (forall v :: v in r <==> IsViewOf(depts, emps, p, v) && q(Entry(v.id, v.employee)))
  {
    var s := Select(emps, q);
    var t := SortBy(s, EmployeeKey);
    SelectSound(emps, q);
    SelectComplete(emps, q);
    SelectCount(emps, q);
    forall e
      ensures e in t <==> e in s
    {
      assert e in t <==> e in multiset(t);
      assert e in s <==> e in multiset(s);
    }
    forall i | 0 <= i < |t|
      ensures t[i].id in emps && emps[t[i].id] == t[i].value
    {
      assert t[i] in s;
      var j :| 0 <= j < |s| && s[j] == t[i];
    }
    PopulateMembers(depts, emps, t, p);
    PopulateSorted(depts, t, p);
  }

  /** The count of a department's employees is the size of its filtered
      listing. */
  lemma CountIsMatching(emps: map<Id, Employee>, d: Id)
    ensures CountEmployeesIn(emps, d) == |Matching(emps, InDepartment(d))|
  {
    assert ReferencingIds(emps, d) == Matching(emps, InDepartment(d));
  }

  /** Every employee passes the empty filter. */
  lemma EveryoneMatches(emps: map<Id, Employee>)
    ensures |Matching(emps, Everyone())| == |emps|
  {
    assert Matching(emps, Everyone()) == emps.Keys;
  }

  // ---------------------------------------------------------------
  // The store
  // ---------------------------------------------------------------

  /** What `findByIdAndUpdate` with `runValidators` can come back with. */
  datatype UpdateOutcome<T> = Invalid | Missing | Updated(entry: Entry<T>)

  /** The two collections.  New ids come from a counter above every id in
      use, so a new document never collides with an existing one, and
      natural order is insertion order. */
  class Store {
    var departments: map<Id, Department>
    var employees: map<Id, Employee>
    var nextId: Id

    ghost predicate Valid()
      reads this
    {
      && (forall id :: id in departments ==> id < nextId)
      && (forall id :: id in employees ==> id < nextId)
    }

    constructor ()
      ensures Valid()
      ensures departments == map[] && employees == map[]
    {
      departments := map[];
      employees := map[];
      nextId := 0;
    }

    /** `new Department(d).save()`. */
    method InsertDepartment(d: Department) returns (id: Id)
      requires Valid()
      modifies this
      ensures Valid()
      ensures id !in old(departments) && id !in old(employees)
      ensures departments == old(departments)[id := d]
      ensures employees == old(employees)
    {
      id := nextId;
      departments := departments[id := d];
      nextId := nextId + 1;
    }

    /** `Department.findByIdAndUpdate(id, f, {new: true})`. */
    method UpdateDepartment(id: Id, f: DepartmentFields) returns (r: Option<Entry<Department>>)
      requires Valid()
      modifies this
      ensures Valid()
      ensures r.Some? <==> id in old(departments)
      ensures r.Some? ==> r.value == Entry(id, PatchDepartment(old(departments)[id], f))
                          && departments == old(departments)[id := r.value.value]
      ensures r.None? ==> departments == old(departments)
      ensures employees == old(employees)
    {
      if id in departments {
        var d := PatchDepartment(departments[id], f);
        departments := departments[id := d];
        r := Some(Entry(id, d));
      } else {
        r := None;
      }
    }

    /** `department.deleteOne()`. */
    method RemoveDepartment(id: Id)
      requires Valid()
      modifies this
      ensures Valid()
      ensures departments == old(departments) - {id}
      ensures employees == old(employees)
    {
      departments := departments - {id};
    }

    /** `new Employee(f).save()`: the saved record, or `None` when the
      schema's validation rejects the fields. */
    method InsertEmployee(f: Fields) returns (r: Option<Entry<Employee>>)
      requires Valid()
      modifies this
      ensures Valid()
      ensures r.Some? <==> Construct(f).Some?
      ensures r.Some? ==> && r.value.id !in old(employees) && r.value.id !in old(departments)
                          && r.value.value == Construct(f).value
                          && employees == old(employees)[r.value.id := r.value.value]
      ensures r.None? ==> employees == old(employees)
      ensures departments == old(departments)
    {
      var e := Construct(f);
      if e.Some? {
        var id := nextId;
        employees := employees[id := e.value];
        nextId := nextId + 1;
        r := Some(Entry(id, e.value));
      } else {
        r := None;
      }
    }

    /** `Employee.findByIdAndUpdate(id, f, {new: true, runValidators: true})`:
        the validators run on the update before the record is looked up. */
    method UpdateEmployee(id: Id, f: Fields) returns (r: UpdateOutcome<Employee>)
      requires Valid()
      modifies this
      ensures Valid()
      ensures r.Invalid? <==> !PatchValid(f)
      ensures r.Missing? <==> PatchValid(f) && id !in old(employees)
      ensures r.Updated? ==> r.entry == Entry(id, Patch(old(employees)[id], f))
                             && employees == old(employees)[id := r.entry.value]
      ensures !r.Updated? ==> employees == old(employees)
      ensures departments == old(departments)
    {
      if !PatchValid(f) {
        r := Invalid;
      } else if id !in employees {
        r := Missing;
      } else {
        var e := Patch(employees[id], f);
        employees := employees[id := e];
        r := Updated(Entry(id, e));
      }
    }

    /** `Employee.findByIdAndDelete(id)`: the removed record, if any. */
    method RemoveEmployee(id: Id) returns (r: Option<Entry<Employee>>)
      requires Valid()
      modifies this
      ensures Valid()
      ensures r.Some? <==> id in old(employees)
      ensures r.Some? ==> r.value == Entry(id, old(employees)[id])
      ensures employees == old(employees) - {id}
      ensures departments == old(departments)
    {
      if id in employees {
        r := Some(Entry(id, employees[id]));
      } else {
        r := None;
      }
      employees := employees - {id};
    }
  }
}
