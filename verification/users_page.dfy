/** The admin-only user management page: loading behind the role gate,
    adding a user (auth account first, then the users row), editing, deleting
    through the auth account's cascade, and the tabbed search. */
module UsersPage {
  import opened Wrappers
  import opened Schema
  import opened Store
  import opened Cascade
  import opened Policy
  import opened Access
  import opened Queries
  import opened Seqs
  import opened Order
  import opened Text
  import opened Decimal
  import opened DepartmentSelect
  import opened Forms

  /** What the page shows once loading ends. */
  datatype View = AccessDenied | Listing(departments: seq<Department>, users: seq<User>)

  /** `fetchData` followed by the render gate. `role` is the session user's
      role (unset without a session or a users row); `departmentRows` and
      `userRows` are what the two SELECTs return. They are requested in that
      order and only for an admin; a failed SELECT leaves its own list and
      the later one empty. */
  function Load(role: Option<Role>, departmentRows: Result<seq<Department>, DbError>,
                userRows: Result<seq<User>, DbError>): (r: View)
    ensures r.Listing? <==> role == Some(Admin)
    ensures r.Listing? && departmentRows.Err? ==> r.departments == [] && r.users == []
    ensures r.Listing? && departmentRows.Ok? ==>
              && SortedBy(r.departments, ByText(DepartmentName))
              && multiset(r.departments) == multiset(departmentRows.value)
    ensures r.Listing? && departmentRows.Ok? && userRows.Err? ==> r.users == []
    ensures r.Listing? && departmentRows.Ok? && userRows.Ok? ==>
              SortedBy(r.users, NewestFirst(UserCreated)) && multiset(r.users) == multiset(userRows.value)
  {
    if role != Some(Admin) then AccessDenied
    else
      match departmentRows
      case Err(_) => Listing([], [])
      case Ok(ds) =>
        match userRows
        case Err(_) => Listing(DepartmentsByName(ds), [])
        case Ok(us) => Listing(DepartmentsByName(ds), UsersNewestFirst(us))
  }

  /** The page's own reading of the session decides the gate: only a session
      user whose row says admin gets the listing, and that user reads every
      users row. */
  lemma AdminGateMatchesPolicies(caller: Caller, s: Store, departmentRows: Result<seq<Department>, DbError>,
                                 userRows: seq<User>)
    requires KeysAreIds(s)
    ensures Load(SessionRole(caller, s), departmentRows, Ok(userRows)).Listing? <==> IsAdmin(caller, s)
    ensures IsAdmin(caller, s) ==> VisibleUsers(caller, s, userRows) == userRows
  {
    if IsAdmin(caller, s) {
      AdminSeesAllUsers(caller, s, userRows);
    }
  }

  // ---------------------------------------------------------------------------
  // Adding a user
  // ---------------------------------------------------------------------------

  /** The add dialog's fields; `department` is the picker's raw value. */
  datatype NewUserForm = NewUserForm(email: string, fullName: string, role: string, department: string, password: string)

  const BlankNewUser: NewUserForm := NewUserForm("", "", "student", "", "")

  const RequiredFieldsMessage: string := "Please fill in all required fields"
  const CreateFailedMessage: string := "Failed to create user"

  /** The required-field check: email, full name and password must be non-empty. */
  function ValidateNewUser(f: NewUserForm): (r: Option<FormError>)
    ensures r.Some? <==> f.email == "" || f.fullName == "" || f.password == ""
    ensures r.Some? ==> r.value == Message(RequiredFieldsMessage)
  {
    if f.email == "" || f.fullName == "" || f.password == "" then Some(Message(RequiredFieldsMessage)) else None
  }

  /** The state `handleAddUser` leaves: the store, the form, the error shown,
      and whether `auth.admin.createUser` was called. */
  datatype AddResult = AddResult(store: Store, form: NewUserForm, error: Option<FormError>, accountRequested: bool)

  /** `handleAddUser`. `account` is the outcome of `auth.admin.createUser`:
      the new account's id, `None` when no user came back, or the auth error's
      message. The users row is then inserted by the session user `caller`. */
  function AddUser(s: Store, caller: Caller, f: NewUserForm, account: Result<Option<UserId>, string>, now: Time)
    : (r: AddResult)
    ensures r.accountRequested <==> ValidateNewUser(f).None?
    ensures ValidateNewUser(f).Some? ==> r.error == ValidateNewUser(f)
    ensures ValidateNewUser(f).None? && account.Err? ==> r.error == Some(Message(account.error))
    ensures ValidateNewUser(f).None? && account == Ok(None) ==> r.error == Some(Message(CreateFailedMessage))
    ensures ValidateNewUser(f).None? && account.Ok? && account.value.Some? ==>
              r.error == Some(Database(RowSecurityViolation("users")))
    ensures r.store == s
    ensures r.error.Some? ==> r.form == f
  {
    match ValidateNewUser(f)
    case Some(e) => AddResult(s, f, Some(e), false)
    case None =>
      match account
      case Err(message) => AddResult(s, f, Some(Message(message)), true)
      case Ok(None) => AddResult(s, f, Some(Message(CreateFailedMessage)), true)
      case Ok(Some(id)) =>
        match InsertUserAs(s, caller, id, f.email, Some(f.fullName), Value(f.role), AsWritten(f.department), now)
        case Err(e) => AddResult(s, f, Some(Database(e)), true)
        case Ok(t) => AddResult(t, BlankNewUser, None, true)
  }

  // ---------------------------------------------------------------------------
  // Editing and deleting
  // ---------------------------------------------------------------------------

  /** `handleEditUser`: writes full_name, role and department (empty text as
      NULL) of the selected user's row, and nothing else. */
  function EditUser(s: Store, caller: Caller, selected: Option<User>): (r: Result<Store, DbError>)
    ensures r.Ok?
    ensures r.value == s.(users := r.value.users) && r.value.users.Keys == s.users.Keys
    ensures forall k :: k in s.users && (selected.None? || k != selected.value.id) ==> r.value.users[k] == s.users[k]
    ensures selected.Some? && selected.value.id in s.users && IsAdmin(caller, s) ==>
              var id := selected.value.id;
              && r.value.users[id].email == s.users[id].email
              && r.value.users[id].fullName == selected.value.fullName
              && r.value.users[id].role == selected.value.role
              && r.value.users[id].department == OrNull(selected.value.department)
              && r.value.users[id] == s.users[id].(fullName := r.value.users[id].fullName,
                                                   role := r.value.users[id].role,
                                                   department := r.value.users[id].department)
    ensures !(selected.Some? && IsAdmin(caller, s)) ==> r.value == s
  {
    match selected
    case None => Ok(s)
    case Some(u) => UpdateUserAs(s, caller, u.id, u.fullName, Some(u.role), OrNull(u.department))
  }

  /** The edit dialog's department picker, `value || null` as written: only
      the empty text becomes NULL, so the "None" item is kept as the text "none". */
  function PickEditDepartment(u: User, value: string): (r: User)
    ensures r.department.None? <==> value == ""
    ensures r.department.Some? ==> r.department.value == value
    ensures r == u.(department := r.department)
  {
    u.(department := AsWritten(value))
  }

  /** Picking "None" in the edit dialog and saving stores a department named
      "none" instead of clearing it. */
  lemma PickingNoneStoresNoneText(s: Store, caller: Caller, u: User)
    requires u.id in s.users && IsAdmin(caller, s)
    ensures EditUser(s, caller, Some(PickEditDepartment(u, NoneItem))).value.users[u.id].department == Some(NoneItem)
  {
  }

  /** The edit dialog's picker as intended: NULL for the "None" item. */
  function PickEditDepartmentCorrected(u: User, value: string): (r: User)
    ensures r.department.None? <==> value == "" || value == NoneItem
    ensures r.department.Some? ==> r.department.value == value
    ensures r == u.(department := r.department)
  {
    u.(department := Picked(value))
  }

  /** With the intended picker, picking "None" and saving clears the stored department. */
  lemma CorrectedPickingNoneClearsDepartment(s: Store, caller: Caller, u: User)
    requires u.id in s.users && IsAdmin(caller, s)
    ensures EditUser(s, caller, Some(PickEditDepartmentCorrected(u, NoneItem))).value.users[u.id].department.None?
  {
  }

  /** `handleDeleteUser`: deleting the auth account removes the users row by
      the `ON DELETE CASCADE` from auth.users, and with it the user's
      enrollments; their announcements stay, authorless. A failed auth call
      changes nothing. */
  function RemoveUser(s: Store, selected: Option<User>, authFailed: bool): (r: Store)
    ensures selected.None? || authFailed ==> r == s
    ensures selected.Some? && !authFailed ==>
              var id := selected.value.id;
              && r.users.Keys == s.users.Keys - {id}
              && (forall k :: k in r.enrollments <==> k in s.enrollments && s.enrollments[k].studentId != id)
              && r.announcements.Keys == s.announcements.Keys
              && (forall k :: k in r.announcements ==> r.announcements[k].authorId != Some(id))
  {
    if selected.None? || authFailed then s else DeleteUser(s, selected.value.id)
  }

  // ---------------------------------------------------------------------------
  // Search and tabs
  // ---------------------------------------------------------------------------

  /** The query occurs, ignoring case, in the email, full name, department or
      role text; a null full name or department searches as "". */
  predicate MatchesSearch(u: User, query: string) {
    || Matches(u.email, query)
    || Matches(u.fullName.GetOr(""), query)
    || Matches(u.department.GetOr(""), query)
    || Matches(RoleName(u.role), query)
  }

  /** The tab ("all" or a role's text) admits the user. */
  predicate OnTab(u: User, tab: string) {
    tab == "all" || RoleName(u.role) == tab
  }

  /** `filteredUsers`. */
  function FilteredUsers(users: seq<User>, query: string, tab: string): (r: seq<User>)
    ensures forall u :: u in r <==> u in users && MatchesSearch(u, query) && OnTab(u, tab)
    ensures tab != "all" ==> forall k :: 0 <= k < |r| ==> RoleName(r[k].role) == tab
  {
    Filter(users, (u: User) => MatchesSearch(u, query) && OnTab(u, tab))
  }

  /** The filtered list keeps the listing's order. */
  lemma FilteredUsersKeepsOrder(users: seq<User>, query: string, tab: string)
    ensures IsSubsequence(FilteredUsers(users, query, tab), users)
  {
    FilterIsSubsequence(users, (u: User) => MatchesSearch(u, query) && OnTab(u, tab));
  }

  /** With an empty query on the "all" tab every user is listed. */
  lemma EmptySearchKeepsAll(users: seq<User>)
    ensures FilteredUsers(users, "", "all") == users
  {
    forall k | 0 <= k < |users|
      ensures MatchesSearch(users[k], "")
    {
      EmptyQueryMatches(users[k].email);
    }
    FilterKeepsAll(users, (u: User) => MatchesSearch(u, "") && OnTab(u, "all"));
  }
}
