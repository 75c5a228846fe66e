/** The Employee schema: which fields a record has, which are required,
    how the schema normalises them on every write (trim, lower case), the
    default it fills in, and the `fullName` virtual. */
module EmployeeModel {
  import opened Envelope
  import opened Text

  /** A stored employee record.  `department` is a weak reference: it holds
      a department's id and nothing checks it against the departments. */
  datatype Employee = Employee(
    firstName: string,
    lastName: string,
    department: Id,
    email: Option<string>,
    phone: Option<string>,
    isActive: bool)

  /** The fields a create or update supplies; `None` is a field the request
      leaves out. */
  datatype Fields = Fields(
    firstName: Option<string>,
    lastName: Option<string>,
    department: Option<Id>,
    email: Option<string>,
    phone: Option<string>,
    isActive: Option<bool>)

  /** The setter of the `firstName`, `lastName` and `phone` paths. */
  function NormalizeText(s: string): string
  {
    Trim(s)
  }

  /** The setter of the `email` path. */
  function NormalizeEmail(s: string): string
  {
    Lower(Trim(s))
  }

  function MapOption(o: Option<string>, f: string -> string): Option<string>
  {
    if o.Some? then Some(f(o.value)) else None
  }

  /** The schema's `required` test on a string path, which runs after the
      setter: the value is present and not empty once trimmed. */
  predicate RequiredText(o: Option<string>)
  {
    o.Some? && NormalizeText(o.value) != ""
  }

  /** What every record the schema accepts looks like: the required names
      are non-empty, and every string path is in the form its setter
      produces. */
  predicate WellFormed(e: Employee)
  {
    && e.firstName != "" && NormalizeText(e.firstName) == e.firstName
    && e.lastName != "" && NormalizeText(e.lastName) == e.lastName
    && (e.email.Some? ==> NormalizeEmail(e.email.value) == e.email.value)
    && (e.phone.Some? ==> NormalizeText(e.phone.value) == e.phone.value)
  }

  /** `new Employee(fields)` followed by the validation `save` runs: the
      record, or `None` when a required path is missing. */
  function Construct(f: Fields): (r: Option<Employee>)
    ensures r.Some? <==> RequiredText(f.firstName) && RequiredText(f.lastName) && f.department.Some?
  {
    if RequiredText(f.firstName) && RequiredText(f.lastName) && f.department.Some? then
      Some(Employee(
        NormalizeText(f.firstName.value),
        NormalizeText(f.lastName.value),
        f.department.value,
        MapOption(f.email, NormalizeEmail),
        MapOption(f.phone, NormalizeText),
        if f.isActive.Some? then f.isActive.value else true))
    else None
  }

  /** The email setter is idempotent: storing an already-normalised email
      leaves it as it is. */
  lemma NormalizeEmailIdempotent(s: string)
    ensures NormalizeEmail(NormalizeEmail(s)) == NormalizeEmail(s)
  {
    var t := Trim(s);
    LowerTrim(t);
    TrimIdempotent(s);
    LowerIdempotent(t);
  }

  /** A constructed record keeps the trimmed names, the trimmed phone, the
      trimmed lower-cased email and the department it was given, and is
      active unless the fields say otherwise. */
  lemma ConstructFields(f: Fields)
    requires Construct(f).Some?
    ensures var e := Construct(f).value;
      && e.firstName == Trim(f.firstName.value)
      && e.lastName == Trim(f.lastName.value)
      && e.department == f.department.value
      && e.email == (if f.email.Some? then Some(Lower(Trim(f.email.value))) else None)
      && e.phone == (if f.phone.Some? then Some(Trim(f.phone.value)) else None)
      && e.isActive == (f.isActive.None? || f.isActive.value)
  {
  }

  /** Every record the schema constructs is well formed. */
  lemma ConstructWellFormed(f: Fields)
    requires Construct(f).Some?
    ensures WellFormed(Construct(f).value)
  {
    TrimIdempotent(f.firstName.value);
    TrimIdempotent(f.lastName.value);
    if f.email.Some? {
      NormalizeEmailIdempotent(f.email.value);
    }
    if f.phone.Some? {
      TrimIdempotent(f.phone.value);
    }
  }

  /** A JavaScript string value that is truthy: present and not "". */
  predicate Truthy(o: Option<string>)
  {
    o.Some? && o.value != ""
  }

  /** The check both create handlers make before building a record: first
      name, last name and department are all truthy. */
  predicate HasRequired(f: Fields)
  {
    Truthy(f.firstName) && Truthy(f.lastName) && f.department.Some?
  }

  /** What a create handler passes to the schema: the five fields it
      destructures from the request body, so `isActive` is never taken from
      the request. */
  function CreateFields(f: Fields): Fields
  {
    Fields(f.firstName, f.lastName, f.department, f.email, f.phone, None)
  }

  /** The schema is at least as strict as the handlers' check: whatever it
      accepts passes the check, and a created record is always active. */
  lemma SchemaImpliesCheck(f: Fields)
    requires Construct(CreateFields(f)).Some?
    ensures HasRequired(f)
    ensures Construct(CreateFields(f)).value.isActive
  {
  }

  /** ... but not the other way round: a first name made only of white
      space is truthy, so it passes the check, and the schema rejects it
      because it trims to "". */
  lemma BlankNamePassesCheck(first: string, last: string, d: Id)
    requires first != "" && forall i :: 0 <= i < |first| ==> IsSpace(first[i])
    requires last != ""
    ensures var f := Fields(Some(first), Some(last), Some(d), None, None, None);
      HasRequired(f) && Construct(CreateFields(f)).None?
  {
  }

  /** The validation an update runs with `runValidators`: it checks only the
      paths the update sets, so it fails when a supplied name trims to "". */
  predicate PatchValid(f: Fields)
  {
    && (f.firstName.None? || RequiredText(f.firstName))
    && (f.lastName.None? || RequiredText(f.lastName))
  }

  /** `findByIdAndUpdate(id, fields)` on one record: every supplied path is
      replaced by its normalised value and every other path is kept.  An
      update that supplies nothing changes nothing, and an update that
      supplies every path builds the record a create from the same fields
      would. */
  function Patch(e: Employee, f: Fields): (r: Employee)
    ensures f == Fields(None, None, None, None, None, None) ==> r == e
    ensures && RequiredText(f.firstName) && RequiredText(f.lastName) && f.department.Some?
            && f.email.Some? && f.phone.Some? && f.isActive.Some? ==>
      Construct(f) == Some(r)
  {
    Employee(
      if f.firstName.Some? then NormalizeText(f.firstName.value) else e.firstName,
      if f.lastName.Some? then NormalizeText(f.lastName.value) else e.lastName,
      if f.department.Some? then f.department.value else e.department,
      if f.email.Some? then Some(NormalizeEmail(f.email.value)) else e.email,
      if f.phone.Some? then Some(NormalizeText(f.phone.value)) else e.phone,
      if f.isActive.Some? then f.isActive.value else e.isActive)
  }

  /** An update the validators accept keeps a well-formed record well
      formed. */
  lemma PatchWellFormed(e: Employee, f: Fields)
    requires WellFormed(e) && PatchValid(f)
    ensures WellFormed(Patch(e, f))
  {
    if f.firstName.Some? {
      TrimIdempotent(f.firstName.value);
    }
    if f.lastName.Some? {
      TrimIdempotent(f.lastName.value);
    }
    if f.email.Some? {
      NormalizeEmailIdempotent(f.email.value);
    }
    if f.phone.Some? {
      TrimIdempotent(f.phone.value);
    }
  }

  /** The text up to the first space, and the text after it. */
  function SplitAtSpace(s: string): (string, string)
  {
    if s == [] then ([], [])
    else if s[0] == ' ' then ([], s[1..])
    else var (a, b) := SplitAtSpace(s[1..]); ([s[0]] + a, b)
  }

  /** For a first name without a space, `fullName` can be taken apart again
      into the first and the last name. */
  lemma {:induction false} FullNameSplits(first: string, last: string)
    requires ' ' !in first
    ensures SplitAtSpace(first + " " + last) == (first, last)
  {
    var s := first + " " + last;
    if first == [] {
      assert s[0] == ' ' && s[1..] == last;
    } else {
      assert s[0] == first[0] && first[0] in first;
      assert s[1..] == first[1..] + " " + last;
      FullNameSplits(first[1..], last);
      assert [first[0]] + first[1..] == first;
    }
  }

  /** The `fullName` virtual: the first name, a space and the last name.
      For a first name without a space it can be taken apart again into
      the record's two names. */
  function FullName(e: Employee): (r: string)
    ensures |r| == |e.firstName| + 1 + |e.lastName|
    ensures ' ' !in e.firstName ==> SplitAtSpace(r) == (e.firstName, e.lastName)
  {
    if ' ' !in e.firstName then
      FullNameSplits(e.firstName, e.lastName);
      e.firstName + " " + e.lastName
    else
      e.firstName + " " + e.lastName
  }
}
