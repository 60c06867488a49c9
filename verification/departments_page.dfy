/** The admin-only department management page: loading behind the role
    gate, adding, editing and deleting a department, and the search box. */
module DepartmentsPage {
  import opened Wrappers
  import opened Schema
  import opened Store
  import opened Cascade
  import opened Policy
  import opened Access
  import opened Queries
  import opened Seqs
  import opened Order
  import opened Text
  import opened Forms

  datatype View = AccessDenied | Listing(departments: seq<Department>)

  /** `fetchData` followed by the render gate: departments are requested, by
      name, only for an admin; a failed SELECT leaves the list empty. */
  function Load(role: Option<Role>, departmentRows: Result<seq<Department>, DbError>): (r: View)
    ensures r.Listing? <==> role == Some(Admin)
    ensures r.Listing? && departmentRows.Err? ==> r.departments == []
    ensures r.Listing? && departmentRows.Ok? ==>
              SortedBy(r.departments, ByText(DepartmentName)) && multiset(r.departments) == multiset(departmentRows.value)
  {
    if role != Some(Admin) then AccessDenied
    else
      match departmentRows
      case Err(_) => Listing([])
      case Ok(ds) => Listing(DepartmentsByName(ds))
  }

  datatype NewDepartmentForm = NewDepartmentForm(name: string, description: string)

  const BlankNewDepartment: NewDepartmentForm := NewDepartmentForm("", "")

  const NameRequiredMessage: string := "Department name is required"

  /** What `handleAddDepartment` leaves: the store, the form, the listing and
      the error shown. */
  datatype AddResult = AddResult(store: Store, form: NewDepartmentForm, listing: seq<Department>, error: Option<FormError>)

  /** `handleAddDepartment`: the name is required; the description is stored
      as typed, so an empty one is stored as "" rather than NULL. After the
      INSERT the list is reloaded by name (`refreshed` is what that SELECT
      returns); only when both succeed is the form reset. A failed reload
      shows its error while the new row stays stored. */
  function AddDepartment(s: Store, caller: Caller, f: NewDepartmentForm, listing: seq<Department>,
                         refreshed: Result<seq<Department>, DbError>, now: Time): (r: AddResult)
    requires SerialsAhead(s)
    ensures f.name == "" ==> r == AddResult(s, f, listing, Some(Message(NameRequiredMessage)))
    ensures f.name != "" && !IsAdmin(caller, s) ==>
              r == AddResult(s, f, listing, Some(Database(RowSecurityViolation("departments"))))
    ensures f.name != "" && IsAdmin(caller, s) && DepartmentNameTaken(s, f.name) ==>
              r == AddResult(s, f, listing, Some(Database(UniqueViolation("departments_name_key"))))
    ensures r.store != s <==> f.name != "" && IsAdmin(caller, s) && !DepartmentNameTaken(s, f.name)
    ensures r.store != s ==>
              && r.store.departments.Keys == s.departments.Keys + {r.store.serials.department}
              && r.store.serials.department !in s.departments
              && r.store.departments[r.store.serials.department].name == f.name
              && r.store.departments[r.store.serials.department].description == Some(f.description)
    ensures r.error.None? <==> r.store != s && refreshed.Ok?
    ensures r.error.None? ==>
              && r.form == BlankNewDepartment
              && SortedBy(r.listing, ByText(DepartmentName))
              && multiset(r.listing) == multiset(refreshed.value)
    ensures r.store != s && refreshed.Err? ==>
              r.form == f && r.listing == listing && r.error == Some(Database(refreshed.error))
  {
    if f.name == "" then AddResult(s, f, listing, Some(Message(NameRequiredMessage)))
    else
      match InsertDepartmentAs(s, caller, f.name, Some(f.description), now)
      case Err(e) => AddResult(s, f, listing, Some(Database(e)))
      case Ok(t) =>
        assert t.serials.department !in s.departments;
        match refreshed
        case Err(e) => AddResult(t, f, listing, Some(Database(e)))
        case Ok(rows) => AddResult(t, BlankNewDepartment, DepartmentsByName(rows), None)
  }

  /** `handleEditDepartment`: writes the selected department's name and
      description and nothing else. */
  function EditDepartment(s: Store, caller: Caller, selected: Option<Department>): (r: Result<Store, DbError>)
    ensures selected.None? || !IsAdmin(caller, s) ==> r == Ok(s)
    ensures r.Err? <==> && selected.Some? && IsAdmin(caller, s) && selected.value.id in s.departments
                        && exists k :: k in s.departments && k != selected.value.id
                                       && s.departments[k].name == selected.value.name
    ensures r.Err? ==> r.error == UniqueViolation("departments_name_key")
    ensures r.Ok? ==> r.value == s.(departments := r.value.departments) && r.value.departments.Keys == s.departments.Keys
    ensures r.Ok? ==> forall k :: k in s.departments && (selected.None? || k != selected.value.id) ==>
                        r.value.departments[k] == s.departments[k]
    ensures r.Ok? && selected.Some? && selected.value.id in s.departments && IsAdmin(caller, s) ==>
              r.value.departments[selected.value.id] ==
                s.departments[selected.value.id].(name := selected.value.name, description := selected.value.description)
  {
    match selected
    case None => Ok(s)
    case Some(d) => UpdateDepartmentAs(s, caller, d.id, d.name, d.description)
  }

  /** `handleDeleteDepartment`: deletes exactly the selected department, with
      the DDL's cascades. */
  function RemoveDepartment(s: Store, caller: Caller, selected: Option<Department>): (r: Store)
    ensures !(selected.Some? && selected.value.id in s.departments && IsAdmin(caller, s)) ==> r == s
    ensures selected.Some? && selected.value.id in s.departments && IsAdmin(caller, s) ==>
              && r.departments.Keys == s.departments.Keys - {selected.value.id}
              && (forall k :: k in r.courses <==> k in s.courses && s.courses[k].departmentId != selected.value.id)
              && r.users == s.users
  {
    match selected
    case None => s
    case Some(d) => DeleteDepartmentAs(s, caller, d.id)
  }

  /** The confirmation dialog says the department and "all associated courses
      and enrollments" go. In a consistent store that is what happens, and
      the department's announcements go too, which the dialog does not say. */
  lemma DeleteDialogIsAccurate(s: Store, caller: Caller, d: Department)
    requires WellFormed(s)
    requires d.id in s.departments && IsAdmin(caller, s)
    ensures var r := RemoveDepartment(s, caller, Some(d));
            && d.id !in r.departments
            && (forall k :: k in r.courses ==> r.courses[k].departmentId != d.id)
            && (forall k :: k in r.enrollments ==> r.enrollments[k].courseId in r.courses)
            && (forall k :: k in r.announcements ==> r.announcements[k].departmentId != Some(d.id))
            && WellFormed(r)
  {
    DeleteDepartmentWellFormed(s, d.id);
  }

  /** The query occurs, ignoring case, in the name or the description (NULL as ""). */
  predicate MatchesSearch(d: Department, query: string) {
    Matches(d.name, query) || Matches(d.description.GetOr(""), query)
  }

  /** `filteredDepartments`. */
  function FilteredDepartments(departments: seq<Department>, query: string): (r: seq<Department>)
    ensures forall d :: d in r <==> d in departments && MatchesSearch(d, query)
  {
    Filter(departments, (d: Department) => MatchesSearch(d, query))
  }

  lemma FilteredDepartmentsKeepsOrder(departments: seq<Department>, query: string)
    ensures IsSubsequence(FilteredDepartments(departments, query), departments)
  {
    FilterIsSubsequence(departments, (d: Department) => MatchesSearch(d, query));
  }

  /** An empty query lists every department. */
  lemma EmptySearchKeepsAll(departments: seq<Department>)
    ensures FilteredDepartments(departments, "") == departments
  {
    forall k | 0 <= k < |departments|
      ensures MatchesSearch(departments[k], "")
    {
      EmptyQueryMatches(departments[k].name);
    }
    FilterKeepsAll(departments, (d: Department) => MatchesSearch(d, ""));
  }
}
