/** The statements the pages send, executed under row-level security. An
    UPDATE or DELETE silently skips the rows its USING policies hide (zero rows
    affected, no error); a new row that no WITH CHECK policy accepts raises a
    row-security error before any constraint is checked. Referential actions
    (the cascades of a DELETE) run as the table owner and bypass the policies. */
module Access {
  import opened Wrappers
  import opened Schema
  import opened Store
  import opened Cascade
  import opened Policy

  /** The caller may read `row` (UPDATE and DELETE only reach rows they can read). */
  predicate Visible(caller: Caller, row: Row, s: Store) {
    Allowed(caller, SelectRow(row), s)
  }

  /** UPDATE users SET full_name, department (and role when given) WHERE id = `id`. */
  function UpdateUserAs(s: Store, caller: Caller, id: UserId, fullName: Option<string>, role: Option<Role>,
                        department: Option<string>): (r: Result<Store, DbError>)
    ensures r.Ok?
    ensures id in s.users && IsAdmin(caller, s) ==> r.value == UpdateUser(s, id, fullName, role, department)
    ensures !(id in s.users && IsAdmin(caller, s)) ==> r.value == s
  {
    if id !in s.users then Ok(s)
    else
      var before := UserRow(s.users[id]);
      var after := UserRow(UpdateUser(s, id, fullName, role, department).users[id]);
      UsersRules(caller, before.user, after.user, s);
      if !(Visible(caller, before, s) && UsingPasses(Update, caller, before, s)) then Ok(s)
      else if !Allowed(caller, UpdateRow(before, after), s) then Err(RowSecurityViolation("users"))
      else Ok(UpdateUser(s, id, fullName, role, department))
  }

  /** INSERT INTO users. No policy admits an INSERT on users, so the check
      fails for every caller. The policies never read the new row's role, so
      the placeholder used when the role text is invalid does not matter. */
  function InsertUserAs(s: Store, caller: Caller, id: UserId, email: string, fullName: Option<string>,
                        role: Column<string>, department: Option<string>, now: Time): (r: Result<Store, DbError>)
    ensures r == Err(RowSecurityViolation("users"))
  {
    var candidate := User(id, email, fullName, if ResolveRole(role).Ok? then ResolveRole(role).value else DefaultRole,
                          department, now, now);
    UsersRules(caller, candidate, candidate, s);
    if !Allowed(caller, InsertRow(UserRow(candidate)), s) then Err(RowSecurityViolation("users"))
    else InsertUser(s, id, email, fullName, role, department, now)
  }

  /** INSERT INTO departments: admins only, then the table's constraints. */
  function InsertDepartmentAs(s: Store, caller: Caller, name: string, description: Option<string>, now: Time)
    : (r: Result<Store, DbError>)
    requires SerialsAhead(s)
    ensures IsAdmin(caller, s) ==> r == InsertDepartment(s, name, description, now)
    ensures !IsAdmin(caller, s) ==> r == Err(RowSecurityViolation("departments"))
  {
    var candidate := DepartmentRow(Department(s.serials.department + 1, name, description, now));
    CatalogRules(caller, candidate, candidate, s);
    if !Allowed(caller, InsertRow(candidate), s) then Err(RowSecurityViolation("departments"))
    else InsertDepartment(s, name, description, now)
  }

  /** UPDATE departments SET name, description WHERE id = `id`. */
  function UpdateDepartmentAs(s: Store, caller: Caller, id: nat, name: string, description: Option<string>)
    : (r: Result<Store, DbError>)
    ensures IsAdmin(caller, s) ==> r == UpdateDepartment(s, id, name, description)
    ensures !IsAdmin(caller, s) ==> r == Ok(s)
  {
    if id !in s.departments then Ok(s)
    else
      var before := DepartmentRow(s.departments[id]);
      var after := DepartmentRow(s.departments[id].(name := name, description := description));
      CatalogRules(caller, before, after, s);
      if !(Visible(caller, before, s) && UsingPasses(Update, caller, before, s)) then Ok(s)
      else if !Allowed(caller, UpdateRow(before, after), s) then Err(RowSecurityViolation("departments"))
      else UpdateDepartment(s, id, name, description)
  }

  /** DELETE FROM departments WHERE id = `id`, with its cascades. */
  function DeleteDepartmentAs(s: Store, caller: Caller, id: nat): (r: Store)
    ensures id in s.departments && IsAdmin(caller, s) ==> r == DeleteDepartment(s, id)
    ensures !(id in s.departments && IsAdmin(caller, s)) ==> r == s
  {
    if id !in s.departments then s
    else
      var row := DepartmentRow(s.departments[id]);
      CatalogRules(caller, row, row, s);
      if Visible(caller, row, s) && Allowed(caller, DeleteRow(row), s) then DeleteDepartment(s, id) else s
  }

  /** INSERT INTO announcements with author_id = `author`: admins and faculty
      only, then the foreign keys. */
  function InsertAnnouncementAs(s: Store, author: UserId, title: string, content: string, departmentId: Option<nat>,
                                now: Time): (r: Result<Store, DbError>)
    requires SerialsAhead(s)
    ensures HasRole(Some(author), s, {Admin, Faculty}) ==>
              r == InsertAnnouncement(s, title, content, Some(author), departmentId, now)
    ensures !HasRole(Some(author), s, {Admin, Faculty}) ==> r == Err(RowSecurityViolation("announcements"))
  {
    var candidate := Announcement(s.serials.announcement + 1, title, content, Some(author), departmentId, now, now);
    AnnouncementInsertRule(Some(author), candidate, s);
    if !Allowed(Some(author), InsertRow(AnnouncementRow(candidate)), s) then Err(RowSecurityViolation("announcements"))
    else InsertAnnouncement(s, title, content, Some(author), departmentId, now)
  }
}
