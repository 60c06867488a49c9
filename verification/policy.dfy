/** Row-level security as the setup route configures it: RLS enabled on all
    five tables, and the permissive policies it creates, kept as data. A
    statement is allowed on a row when some policy for that table and command
    accepts it (permissive policies are OR-combined); when none does, it is
    denied. Roles are read from the users table of the store, as the policies'
    `EXISTS (SELECT 1 FROM users WHERE id = auth.uid() AND role = ...)` do. */
module Policy {
  import opened Wrappers
  import opened Schema
  import opened Store

  datatype Table = UsersTable | DepartmentsTable | CoursesTable | EnrollmentsTable | AnnouncementsTable

  /** A row of one of the five tables. */
  datatype Row =
    | UserRow(user: User)
    | DepartmentRow(department: Department)
    | CourseRow(course: Course)
    | EnrollmentRow(enrollment: Enrollment)
    | AnnouncementRow(announcement: Announcement)

  function TableOf(row: Row): Table {
    match row
    case UserRow(_) => UsersTable
    case DepartmentRow(_) => DepartmentsTable
    case CourseRow(_) => CoursesTable
    case EnrollmentRow(_) => EnrollmentsTable
    case AnnouncementRow(_) => AnnouncementsTable
  }

  /** The command named in `CREATE POLICY ... FOR <command>`. */
  datatype Command = ForSelect | ForInsert | ForUpdate | ForDelete | ForAll

  /** The kind of statement being authorised. */
  datatype Op = Select | Insert | Update | Delete

  predicate Covers(c: Command, op: Op) {
    match c
    case ForAll => true
    case ForSelect => op == Select
    case ForInsert => op == Insert
    case ForUpdate => op == Update
    case ForDelete => op == Delete
  }

  /** The policy expressions that occur in the setup route. */
  datatype Expr =
    | Always                          // true
    | UidIsUserId                     // auth.uid() = id
    | UidIsStudent                    // auth.uid() = student_id
    | UidIsAuthor                     // auth.uid() = author_id
    | CallerRoleIn(roles: set<Role>)  // EXISTS (SELECT 1 FROM users WHERE id = auth.uid() AND role IN roles)
    | CallerTeachesCourse             // the faculty/department join on enrollments.course_id

  datatype Policy = Policy(name: string, table: Table, command: Command, using: Option<Expr>, withCheck: Option<Expr>)

  const UsersViewOwn := Policy("Users can view their own profile", UsersTable, ForSelect, Some(UidIsUserId), None)
  const AdminViewUsers := Policy("Admin can view all user profiles", UsersTable, ForSelect, Some(CallerRoleIn({Admin})), None)
  const AdminUpdateUsers := Policy("Admin can update all user profiles", UsersTable, ForUpdate, Some(CallerRoleIn({Admin})), None)
  const AnyoneViewDepartments := Policy("Anyone can view departments", DepartmentsTable, ForSelect, Some(Always), None)
  const AdminManageDepartments := Policy("Admin can manage departments", DepartmentsTable, ForAll, Some(CallerRoleIn({Admin})), None)
  const AnyoneViewCourses := Policy("Anyone can view courses", CoursesTable, ForSelect, Some(Always), None)
  const AdminManageCourses := Policy("Admin can manage courses", CoursesTable, ForAll, Some(CallerRoleIn({Admin})), None)
  const StudentsViewOwnEnrollments := Policy("Students can view their own enrollments", EnrollmentsTable, ForSelect, Some(UidIsStudent), None)
  const FacultyViewDepartmentEnrollments :=
    Policy("Faculty can view enrollments for their department", EnrollmentsTable, ForSelect, Some(CallerTeachesCourse), None)
  const AdminManageEnrollments := Policy("Admin can manage all enrollments", EnrollmentsTable, ForAll, Some(CallerRoleIn({Admin})), None)
  const AnyoneViewAnnouncements := Policy("Anyone can view announcements", AnnouncementsTable, ForSelect, Some(Always), None)
  const StaffCreateAnnouncements :=
    Policy("Faculty and admin can create announcements", AnnouncementsTable, ForInsert, None, Some(CallerRoleIn({Admin, Faculty})))
  const AuthorsUpdateAnnouncements := Policy("Authors can update their announcements", AnnouncementsTable, ForUpdate, Some(UidIsAuthor), None)
  const AdminManageAnnouncements :=
    Policy("Admin can manage all announcements", AnnouncementsTable, ForAll, Some(CallerRoleIn({Admin})), None)

  /** The policies created `ON` table `t`, in the order the setup route creates them. */
  function PoliciesOn(t: Table): (r: seq<Policy>)
    ensures forall p :: p in r ==> p.table == t
  {
    match t
    case UsersTable => [UsersViewOwn, AdminViewUsers, AdminUpdateUsers]
    case DepartmentsTable => [AnyoneViewDepartments, AdminManageDepartments]
    case CoursesTable => [AnyoneViewCourses, AdminManageCourses]
    case EnrollmentsTable => [StudentsViewOwnEnrollments, FacultyViewDepartmentEnrollments, AdminManageEnrollments]
    case AnnouncementsTable =>
      [AnyoneViewAnnouncements, StaffCreateAnnouncements, AuthorsUpdateAnnouncements, AdminManageAnnouncements]
  }

  /** `ALTER TABLE ... ENABLE ROW LEVEL SECURITY` is run on every table. */
  predicate RlsEnabled(t: Table) {
    t in {UsersTable, DepartmentsTable, CoursesTable, EnrollmentsTable, AnnouncementsTable}
  }

  /** `auth.uid()`: the session user's id, or `None` for an anonymous request. */
  type Caller = Option<UserId>

  /** The caller has a users row whose role is in `roles`. */
  predicate HasRole(caller: Caller, s: Store, roles: set<Role>) {
    caller.Some? && caller.value in s.users && s.users[caller.value].role in roles
  }

  predicate IsAdmin(caller: Caller, s: Store) {
    HasRole(caller, s, {Admin})
  }

  /** The caller is faculty and their department text equals the name of the
      department of course `courseId`. */
  predicate TeachesCourse(caller: Caller, courseId: nat, s: Store) {
    && caller.Some? && caller.value in s.users
    && s.users[caller.value].role == Faculty
    && s.users[caller.value].department.Some?
    && courseId in s.courses
    && s.courses[courseId].departmentId in s.departments
    && s.departments[s.courses[courseId].departmentId].name == s.users[caller.value].department.value
  }

  /** The value of a policy expression for `caller` on `row` (SQL NULL counts as false). */
  predicate Holds(e: Expr, caller: Caller, row: Row, s: Store) {
    match e
    case Always => true
    case UidIsUserId => row.UserRow? && caller == Some(row.user.id)
    case UidIsStudent => row.EnrollmentRow? && caller == Some(row.enrollment.studentId)
    case UidIsAuthor => row.AnnouncementRow? && caller.Some? && row.announcement.authorId == caller
    case CallerRoleIn(roles) => HasRole(caller, s, roles)
    case CallerTeachesCourse => row.EnrollmentRow? && TeachesCourse(caller, row.enrollment.courseId, s)
  }

  /** The WITH CHECK expression in force: the USING expression when none is given. */
  function CheckExpr(p: Policy): (r: Option<Expr>)
    ensures p.withCheck.Some? ==> r == p.withCheck
    ensures p.withCheck.None? ==> r == p.using
  {
    if p.withCheck.Some? then p.withCheck else p.using
  }

  /** Some policy for the row's table and `op` has a USING expression that accepts the existing row. */
  predicate UsingPasses(op: Op, caller: Caller, row: Row, s: Store) {
    exists p :: p in PoliciesOn(TableOf(row)) && Covers(p.command, op)
                && p.using.Some? && Holds(p.using.value, caller, row, s)
  }

  /** Some policy for the row's table and `op` has a check expression that accepts the new row. */
  predicate CheckPasses(op: Op, caller: Caller, row: Row, s: Store) {
    exists p :: p in PoliciesOn(TableOf(row)) && Covers(p.command, op)
                && CheckExpr(p).Some? && Holds(CheckExpr(p).value, caller, row, s)
  }

  /** A single-row request: reading, inserting, updating (old and new row) or deleting. */
  datatype Request = SelectRow(row: Row) | InsertRow(row: Row) | UpdateRow(before: Row, after: Row) | DeleteRow(row: Row)

  /** PostgreSQL's decision for a request under row-level security. */
  predicate Allowed(caller: Caller, req: Request, s: Store) {
    match req
    case SelectRow(r) => !RlsEnabled(TableOf(r)) || UsingPasses(Select, caller, r, s)
    case InsertRow(r) => !RlsEnabled(TableOf(r)) || CheckPasses(Insert, caller, r, s)
    case UpdateRow(o, n) =>
      && TableOf(o) == TableOf(n)
      && (!RlsEnabled(TableOf(o)) || (UsingPasses(Update, caller, o, s) && CheckPasses(Update, caller, n, s)))
    case DeleteRow(r) => !RlsEnabled(TableOf(r)) || UsingPasses(Delete, caller, r, s)
  }

  // ---------------------------------------------------------------------------
  // The rules the policy list amounts to, table by table
  // ---------------------------------------------------------------------------

  /** users: a row is readable by its own user and by admins; only admins may
      update, even their own row; no policy covers INSERT or DELETE. */
  lemma UsersRules(caller: Caller, u: User, u': User, s: Store)
    ensures Allowed(caller, SelectRow(UserRow(u)), s) <==> caller == Some(u.id) || IsAdmin(caller, s)
    ensures Allowed(caller, UpdateRow(UserRow(u), UserRow(u')), s) <==> IsAdmin(caller, s)
    ensures !Allowed(caller, InsertRow(UserRow(u)), s)
    ensures !Allowed(caller, DeleteRow(UserRow(u)), s)
  {
    if caller == Some(u.id) {
      assert UsersViewOwn in PoliciesOn(UsersTable);
    }
    if IsAdmin(caller, s) {
      assert AdminViewUsers in PoliciesOn(UsersTable) && AdminUpdateUsers in PoliciesOn(UsersTable);
    }
  }

  /** departments and courses: anyone may read; every write needs an admin. */
  lemma CatalogRules(caller: Caller, row: Row, row': Row, s: Store)
    requires row.DepartmentRow? || row.CourseRow?
    requires TableOf(row') == TableOf(row)
    ensures Allowed(caller, SelectRow(row), s)
    ensures Allowed(caller, InsertRow(row), s) <==> IsAdmin(caller, s)
    ensures Allowed(caller, UpdateRow(row, row'), s) <==> IsAdmin(caller, s)
    ensures Allowed(caller, DeleteRow(row), s) <==> IsAdmin(caller, s)
  {
    assert AnyoneViewDepartments in PoliciesOn(DepartmentsTable) && AnyoneViewCourses in PoliciesOn(CoursesTable);
    if IsAdmin(caller, s) {
      assert AdminManageDepartments in PoliciesOn(DepartmentsTable) && AdminManageCourses in PoliciesOn(CoursesTable);
    }
  }

  /** enrollments: readable by the enrolled student, by faculty of the course's
      department, and by admins; every write needs an admin (no self-enrolment). */
  lemma EnrollmentRules(caller: Caller, e: Enrollment, e': Enrollment, s: Store)
    ensures Allowed(caller, SelectRow(EnrollmentRow(e)), s) <==>
              caller == Some(e.studentId) || TeachesCourse(caller, e.courseId, s) || IsAdmin(caller, s)
    ensures Allowed(caller, InsertRow(EnrollmentRow(e)), s) <==> IsAdmin(caller, s)
    ensures Allowed(caller, UpdateRow(EnrollmentRow(e), EnrollmentRow(e')), s) <==> IsAdmin(caller, s)
    ensures Allowed(caller, DeleteRow(EnrollmentRow(e)), s) <==> IsAdmin(caller, s)
  {
    if caller == Some(e.studentId) {
      assert StudentsViewOwnEnrollments in PoliciesOn(EnrollmentsTable);
    }
    if TeachesCourse(caller, e.courseId, s) {
      assert FacultyViewDepartmentEnrollments in PoliciesOn(EnrollmentsTable);
    }
    if IsAdmin(caller, s) {
      assert AdminManageEnrollments in PoliciesOn(EnrollmentsTable);
    }
  }

  /** announcements: anyone may read; admins and faculty may create; the author
      (who must stay the author) or an admin may update; only admins may delete. */
  lemma AnnouncementRules(caller: Caller, a: Announcement, a': Announcement, s: Store)
    ensures Allowed(caller, SelectRow(AnnouncementRow(a)), s)
    ensures Allowed(caller, InsertRow(AnnouncementRow(a)), s) <==> HasRole(caller, s, {Admin, Faculty})
    ensures Allowed(caller, UpdateRow(AnnouncementRow(a), AnnouncementRow(a')), s) <==>
              IsAdmin(caller, s) || (caller.Some? && a.authorId == caller && a'.authorId == caller)
    ensures Allowed(caller, DeleteRow(AnnouncementRow(a)), s) <==> IsAdmin(caller, s)
  {
    assert AnyoneViewAnnouncements in PoliciesOn(AnnouncementsTable);
    AnnouncementInsertRule(caller, a, s);
    AnnouncementUpdateRule(caller, a, a', s);
    AnnouncementDeleteRule(caller, a, s);
  }

  lemma AnnouncementInsertRule(caller: Caller, a: Announcement, s: Store)
    ensures Allowed(caller, InsertRow(AnnouncementRow(a)), s) <==> HasRole(caller, s, {Admin, Faculty})
  {
    if HasRole(caller, s, {Admin, Faculty}) {
      assert StaffCreateAnnouncements in PoliciesOn(AnnouncementsTable);
    }
  }

  lemma AnnouncementUpdateRule(caller: Caller, a: Announcement, a': Announcement, s: Store)
    ensures Allowed(caller, UpdateRow(AnnouncementRow(a), AnnouncementRow(a')), s) <==>
              IsAdmin(caller, s) || (caller.Some? && a.authorId == caller && a'.authorId == caller)
  {
    AnnouncementUpdatePolicies(caller, a, s);
    AnnouncementUpdatePolicies(caller, a', s);
  }

  /** For UPDATE on announcements the same two policies decide both the
      existing row (USING) and the new row (the USING text as WITH CHECK). */
  lemma AnnouncementUpdatePolicies(caller: Caller, a: Announcement, s: Store)
    ensures UsingPasses(Update, caller, AnnouncementRow(a), s) <==> IsAdmin(caller, s) || (caller.Some? && a.authorId == caller)
    ensures CheckPasses(Update, caller, AnnouncementRow(a), s) <==> IsAdmin(caller, s) || (caller.Some? && a.authorId == caller)
  {
    if caller.Some? && a.authorId == caller {
      assert AuthorsUpdateAnnouncements in PoliciesOn(AnnouncementsTable);
    }
    if IsAdmin(caller, s) {
      assert AdminManageAnnouncements in PoliciesOn(AnnouncementsTable);
    }
  }

  lemma AnnouncementDeleteRule(caller: Caller, a: Announcement, s: Store)
    ensures Allowed(caller, DeleteRow(AnnouncementRow(a)), s) <==> IsAdmin(caller, s)
  {
    if IsAdmin(caller, s) {
      assert AdminManageAnnouncements in PoliciesOn(AnnouncementsTable);
    }
  }

  /** Fail closed: an anonymous caller may only read the public tables. */
  lemma AnonymousReadsOnlyPublicTables(row: Row, row': Row, s: Store)
    ensures Allowed(None, SelectRow(row), s) <==> !(row.UserRow? || row.EnrollmentRow?)
    ensures !Allowed(None, InsertRow(row), s)
    ensures !Allowed(None, UpdateRow(row, row'), s)
    ensures !Allowed(None, DeleteRow(row), s)
  {
    if TableOf(row') == TableOf(row) {
      match row
      case UserRow(u) => UsersRules(None, u, row'.user, s);
      case DepartmentRow(_) => CatalogRules(None, row, row', s);
      case CourseRow(_) => CatalogRules(None, row, row', s);
      case EnrollmentRow(e) => EnrollmentRules(None, e, row'.enrollment, s);
      case AnnouncementRow(a) => AnnouncementRules(None, a, row'.announcement, s);
    } else {
      match row
      case UserRow(u) => UsersRules(None, u, u, s);
      case DepartmentRow(_) => CatalogRules(None, row, row, s);
      case CourseRow(_) => CatalogRules(None, row, row, s);
      case EnrollmentRow(e) => EnrollmentRules(None, e, e, s);
      case AnnouncementRow(a) => AnnouncementRules(None, a, a, s);
    }
  }
}
