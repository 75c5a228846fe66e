# Employee/department directory — a Dafny model

This project models the core of a small employee/department directory: a
REST API over a document store with two collections, Department
(name, description) and Employee (first name, last name, department
reference, email, phone, active flag), and a thin browser client.

The model has one Dafny module per source file, plus shared modules:

- `Envelope` holds the `{ success, message, data, count }` result object, the `(status, body)` reply of a handler, and the thrown-error outcome of a service call.
- `Text` holds JavaScript's `trim`, ASCII `toLowerCase`/`toUpperCase`, `includes`, and the code-point order the store sorts strings by.
- `Lists` holds maps listed in natural (ascending id) order, filters, lookups by id, and a sort on lexicographic keys.
- `EmployeeModel` is the Employee schema: required paths, trim and lower-case setters, the `isActive` default and the `fullName` virtual.
- `Database` is the store. It is a `Store` class with a department map, an employee map and an id counter, so that every new id is fresh. It also holds the queries the services run (find, populate, sort, count) and the two invariants the business rules are about:
  - referential integrity: every employee's department exists;
  - name uniqueness: no two departments share a name.
- `DepartmentService` and `EmployeeService` model the domain layer (`services/`).
- `DepartmentController` and `EmployeeController` model the HTTP handlers (`controllers/`), each returning a status code with the body.
- `Client` models the search, the department filter, the per-department badge and the form checks of `public/js/app.js`.
- `Scenarios` holds verified scenarios: fixed sequences of calls over a fresh store, with their outcomes proved.

Queries are functions that read the store. Writes are methods that modify it. Each write states the whole new state of both maps.

The two layers differ in one important way. The employee handlers look the department up before they create or move an employee (controllers/employeeController.js:64-71 and :104-112). The employee service does not: it saves or updates with whatever department id it is given (services/employeeService.js:81-89 and :109-113). So the model proves that every handler write keeps referential integrity. It also shows, in verified scenarios, that the service's create and update can leave a dangling reference. The department update re-checks nobody's name, so uniqueness is proved for create only, and a verified scenario shows a rename that breaks it.

## Model

| member | source | states |
|---|---|---|
| EmployeeModel.Construct | models/Employee.js:3-38 | a record is built exactly when first and last name are present and non-empty once trimmed and a department is given |
| EmployeeModel.ConstructFields | models/Employee.js:4-35 | names and phone are stored trimmed, email trimmed and lower-cased, the department as given, and `isActive` is true unless supplied |
| EmployeeModel.ConstructWellFormed | models/Employee.js:4-27 | every record the schema builds has non-empty names and every string path in the form its setter produces |
| EmployeeModel.NormalizeEmailIdempotent | models/Employee.js:19-23 | storing an already-normalised email leaves it unchanged |
| Text.TrimIdempotent | models/Employee.js:7 | trimming a trimmed value changes nothing |
| Text.Trim | models/Employee.js:7 | the trimmed value is never longer than the input and neither starts nor ends with white space |
| Text.TrimIsSlice | models/Employee.js:7 | the trimmed value is the slice of the input between its leading and trailing white space, and what is cut off at either end is all white space |
| Text.LowerIdempotent | models/Employee.js:22 | lower-casing a lower-cased value changes nothing |
| Text.LowerTrim | models/Employee.js:19-23 | trimming and lower-casing commute, so the order in which the two setters run does not matter |
| EmployeeModel.PatchWellFormed | services/employeeService.js:109-113 | an update the validators accept keeps a well-formed record well formed |
| EmployeeModel.Patch | services/employeeService.js:109-113 | an update that supplies no path leaves the record as it was, and one that supplies every path gives the record a create from the same fields builds |
| EmployeeModel.SchemaImpliesCheck | controllers/employeeController.js:57-81 | whatever the schema accepts also passes the handlers' required-field check, and a created record is active |
| EmployeeModel.BlankNamePassesCheck | controllers/employeeController.js:57-81 | any non-empty first name made only of white space passes the handlers' check, and the schema rejects it |
| EmployeeModel.FullNameSplits | models/Employee.js:41-43 | a full name built from a first name without a space splits back into the first and the last name |
| EmployeeModel.FullName | models/Employee.js:41-43 | `fullName` is one character longer than the two names together, and for a first name without a space it splits back into the record's `firstName` and `lastName` |
| Text.LowerOfUpper | public/js/app.js:644-645 | a string and its upper-cased form lower-case alike |
| Text.ContainsIgnoringCaseUpper | public/js/app.js:644-645 | the case-insensitive test gives the same answer for an upper-cased term or an upper-cased name |
| Lists.SortBy | services/employeeService.js:11 | the sort returns a permutation of its input, ordered by its key |
| Lists.SelectCount | services/employeeService.js:15 | a query returns one entry per matching document |
| Database.DepartmentsByNameSpec | services/departmentService.js:7 | the department listing is ordered by name, holds every department exactly once and holds nothing else |
| Database.EmployeesWhereSpec | services/departmentService.js:66-67 | an unsorted employee query with `populate` returns the populated views of exactly the matching employees, one per match |
| Database.EmployeesWhereSortedSpec | services/employeeService.js:9-11 | a sorted employee query returns the same views, ordered by (lastName, firstName) |
| Database.Populate | services/employeeService.js:10 | populating keeps the list's length and puts, at each position, that record with the department it references, or none when that department is gone |
| Database.PopulateSorted | services/employeeService.js:10-11 | attaching the department keeps the order of the sort fields |
| Database.PopulateMembers | services/employeeService.js:10 | populating a list of stored employees yields exactly their views, each with the department it references or none when that department is gone |
| Database.CountIsMatching | services/departmentService.js:121 | `countDocuments({department})` equals the number of employees a `find` with that filter returns |
| Database.EveryoneMatches | services/employeeService.js:9 | the empty filter matches every employee |
| Database.PatchDepartment | services/departmentService.js:85-89 | the name is either kept or the supplied one; an update with no field changes nothing, and one with both fields gives the department a create with them builds |
| Database.RemoveUnreferenced | services/departmentService.js:121-130 | removing a department that no employee references keeps referential integrity |
| Database.Store.InsertDepartment | services/departmentService.js:51-52 | a save adds one department under an id not used in either collection and changes nothing else |
| Database.Store.UpdateDepartment | services/departmentService.js:85-89 | an update by id replaces the supplied fields of that one department, or finds nothing and changes nothing |
| Database.Store.RemoveDepartment | services/departmentService.js:130 | `deleteOne` removes that department only |
| Database.Store.InsertEmployee | services/employeeService.js:81-89 | a save adds the schema's record under a fresh id, or changes nothing when the schema rejects the fields |
| Database.Store.UpdateEmployee | services/employeeService.js:109-113 | the validators run first; then an update by id patches that one employee, or finds nothing; nothing else changes |
| Database.Store.RemoveEmployee | services/employeeService.js:137 | `findByIdAndDelete` removes that employee only and returns it when it existed |
| DepartmentService.GetAllDepartments | services/departmentService.js:5-16 | success with every department once, ordered by name, and `count` equal to the list length |
| DepartmentService.GetDepartmentById | services/departmentService.js:18-36 | success with the department exactly when the id exists, else "Department not found" |
| DepartmentService.CreateDepartment | services/departmentService.js:38-62 | fails with "Department already exists" and adds nothing exactly when the name is taken; otherwise adds exactly one department with a fresh id; keeps name uniqueness and referential integrity |
| DepartmentService.GetDepartmentEmployees | services/departmentService.js:64-77 | always succeeds, with exactly the employees referencing the id (department name attached) and `count` equal to the number of referencing employees |
| DepartmentService.UpdateDepartment | services/departmentService.js:82-106 | fails with "Department not found" and changes nothing for an absent id; otherwise replaces only the supplied fields of that department; keeps integrity; does not promise uniqueness |
| DepartmentService.DeleteDepartment | services/departmentService.js:108-138 | "Department not found" for an absent id; "Cannot delete department with assigned employees" with no change while the count is positive; otherwise removes exactly that department; employees untouched; keeps integrity |
| EmployeeService.GetAllEmployees | services/employeeService.js:7-21 | every employee once, populated with name and description, ordered by (lastName, firstName), `count` equal to the length |
| EmployeeService.GetEmployeeById | services/employeeService.js:26-45 | success with the populated employee exactly when the id exists, else "Employee not found" |
| EmployeeService.GetEmployeesByDepartment | services/employeeService.js:50-64 | always succeeds with exactly the employees referencing the id, ordered by (lastName, firstName), as many as the count of referencing employees |
| EmployeeService.CreateEmployee | services/employeeService.js:69-102 | the "required" failure and no write when a field is falsy; a thrown error and no write when the schema rejects; otherwise one new employee with a fresh id; departments never consulted, so integrity is kept only when the department exists |
| EmployeeService.UpdateEmployee | services/employeeService.js:107-130 | a thrown error when the validators reject; "Employee not found" and no change for an absent id; otherwise only that employee's supplied fields change; integrity is kept only when a supplied department exists |
| EmployeeService.DeleteEmployee | services/employeeService.js:135-153 | removes exactly that employee, "Employee not found" when absent, never touches departments, keeps integrity |
| EmployeeService.SearchEmployees | services/employeeService.js:158-175 | for a term without regex metacharacters, exactly the employees whose first or last name contains the term ignoring case, counted |
| EmployeeService.SearchIgnoresCase | services/employeeService.js:162-163 | searching for the upper-cased term returns the identical result |
| EmployeeService.SearchEmptyTerm | services/employeeService.js:160-165 | the empty term finds every employee |
| DepartmentController.GetAllDepartments | controllers/departmentController.js:5-20 | status 200 with every department once, ordered by name, `count` equal to the length |
| DepartmentController.GetDepartmentById | controllers/departmentController.js:23-43 | 200 with the department when the id exists, else 404 "Department not found" |
| DepartmentController.CreateDepartment | controllers/departmentController.js:46-77 | 400 "Department already exists" with no insert when the name is taken, else 201 and exactly one new department; keeps uniqueness and integrity |
| DepartmentController.UpdateDepartment | controllers/departmentController.js:80-107 | 404 with no change for an absent id, else 200 and a partial update of that department only; keeps integrity |
| DepartmentController.DeleteDepartment | controllers/departmentController.js:110-144 | 404 for an absent id; 400 with no change while an employee references it; else 200 and only that department removed; keeps integrity |
| DepartmentController.GetDepartmentEmployees | controllers/departmentController.js:147-165 | 200 with exactly the employees referencing the id, whether or not the department exists |
| EmployeeController.GetAllEmployees | controllers/employeeController.js:5-23 | 200 with every employee once, with the department name, ordered by (lastName, firstName) |
| EmployeeController.GetEmployeeById | controllers/employeeController.js:26-49 | 200 with the employee when it exists, else 404 "Employee not found" |
| EmployeeController.CreateEmployee | controllers/employeeController.js:52-98 | 400 for a falsy required field, 400 "Department not found" for a missing department, 500 when the schema rejects, else 201 and one new employee with a fresh id; integrity is always kept |
| EmployeeController.UpdateEmployee | controllers/employeeController.js:101-139 | 400 when a supplied department is missing (before the id lookup), 500 when the validators reject, 404 for an absent id, else 200 and that employee patched; integrity is always kept |
| EmployeeController.DeleteEmployee | controllers/employeeController.js:142-164 | 200 and exactly that employee removed, or 404 when absent; keeps integrity |
| EmployeeController.GetEmployeesByDepartment | controllers/employeeController.js:167-187 | 200 with exactly the employees referencing the id, ordered by (lastName, firstName) |
| Client.SearchEmployees | public/js/app.js:637-649 | the empty term shows the list unchanged, and that shortcut shows what the filter would; the rows shown are the subsequence, in order and with every repetition, of the rows whose first or last name contains the term ignoring case |
| Client.SearchIgnoresCase | public/js/app.js:644-645 | the term and its upper-cased form show the same rows |
| Client.FilterByDepartment | public/js/app.js:651-659 | the empty selection shows every row; otherwise the subsequence, in order and with every repetition, of the rows whose populated department is the selected one |
| Client.DepartmentEmployeeCount | public/js/app.js:294 | the badge equals the number of rows the department filter shows, and it is zero exactly when no row references the department |
| Client.CountMatchesServer | public/js/app.js:294 | on a freshly loaded list, the badge of an existing department equals the count the server checks before deleting it |
| Client.CountOfMissingDepartment | public/js/app.js:294 | on a freshly loaded list, a department that does not exist has a zero badge |
| Client.SaveEmployee | public/js/app.js:484-529 | refuses with "Please fill in all required fields" exactly when first name, last name or department is empty; otherwise sends a PUT when editing and a POST otherwise |
| Client.SaveEmployeeAgreesWithServer | public/js/app.js:496-499 | the form sends a request exactly when the body passes the server's required-field check |
| Client.SaveDepartment | public/js/app.js:569-610 | refuses with "Department name is required" exactly when the name is empty; otherwise sends a PUT or a POST |
| Client.DeleteDepartment | public/js/app.js:612-634 | refuses with a warning carrying the count exactly when a loaded row references the department; otherwise sends the DELETE only if confirmed |
| Scenarios.SurgeryWalkthrough | controllers/departmentController.js:46-144 | create, duplicate create, create an employee in a missing department, create one in the department, blocked delete, delete the employee, delete: 201, 400, 400, 201, 400, 200, 200, with integrity at the end |
| Scenarios.ServiceCreateDangles | services/employeeService.js:69-98 | the service saves an employee in a department that does not exist, breaking referential integrity |
| Scenarios.HandlerRefusesMissingDepartment | controllers/employeeController.js:57-71 | in an empty directory, every create through the handler is refused with 400 and stores nothing |
| Scenarios.ServiceUpdateDangles | services/employeeService.js:107-126 | the service moves an employee to a missing department and breaks integrity, while the handler refuses the same update with 400 |
| Scenarios.RenameDuplicates | services/departmentService.js:82-101 | renaming a department to another's name succeeds, so name uniqueness holds before the update and not after |

## Left out

- HTTP transport: routing, the server bootstrap, CORS and the database connection. Handlers take their inputs as parameters.
- The `error` field of a 500 body, and every 500 or rethrow caused by a store failure or a malformed id (a cast error). Ids are natural numbers handed out by the store, and the store does not fail. The one thrown error that is modelled is the schema's validation failure on an employee create or update.
- EmployeeService.CreateEmployee: the thrown error carries only the service's prefix ("Error creating employee"), not the validator's own message that follows it. The same holds for EmployeeService.UpdateEmployee.
- The Department schema file is not part of this model. Department writes are taken to pass validation, and a name is always a string. In particular, a create without a name is not modelled: `findOne({name: undefined})` matches any department.
- EmployeeService.SearchEmployees: the server matches the term as a regular expression. The model treats it as literal text and is defined only for terms with no regex metacharacter.
- Case mapping covers ASCII letters only; there is no Unicode case mapping.
- String order is code-point order. The store's collation rules beyond that are not modelled.
- Sort ties. Contracts promise a sorted listing holding exactly the matching documents, once each. The order among equal (lastName, firstName) keys is not promised.
- Unsorted queries are listed in ascending id, which is insertion order. Contracts promise only which documents come back and how many, not their order.
- `hireDate` and timestamps depend on the clock.
- Update bodies are checked only for the six schema paths. Keys outside the schema are not modelled.
- Concurrency: each operation is one atomic method. The read-then-write races in department create and delete are not modelled.
- Client: rendering, jQuery DOM updates, AJAX calls and their response alerts, and the search debounce are not modelled. The `confirm` dialog's answer is a parameter. The client's cached list is assumed to be the latest `GET /api/employees` response; a stale cache is not modelled.
- The client's `deleteEmployee`, the dashboard and its floating-point figures are not modelled.

## Findings

| source | as written | input that shows it | evidently intended | confidence | as-written member | corrected member |
|---|---|---|---|---|---|---|
| services/employeeService.js:69-98 | `createEmployee` saves the employee without looking its department up | a create with names "Ann" and "Lee" and a department id that no department has, in an empty directory | refuse with "Department not found", as the handler does, so that every employee's department exists | medium: the handler makes this check at controllers/employeeController.js:64-71 before it builds the same record; not executed | Scenarios.ServiceCreateDangles | EmployeeController.CreateEmployee |
| services/employeeService.js:107-126 | `updateEmployee` applies a new department without looking it up | moving the only employee of a one-department directory to an id no department has | refuse with "Department not found" before the update | medium: the handler makes this check at controllers/employeeController.js:104-112 before it runs the same update; not executed | Scenarios.ServiceUpdateDangles | EmployeeController.UpdateEmployee |
