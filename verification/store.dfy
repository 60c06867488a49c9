/** The database created by app/api/setup-db/route.ts as an immutable value:
    one map per table keyed by primary key, plus the SERIAL counters. Inserts
    and updates enforce the DDL's NOT NULL, CHECK, UNIQUE and FOREIGN KEY
    constraints in the order PostgreSQL checks them (NOT NULL and CHECK, then
    unique indexes, then foreign keys) and report the first violation. */
module Store {
  import opened Wrappers
  import opened Schema

  /** A column in an INSERT: left out (the DEFAULT applies), an explicit NULL, or a value. */
  datatype Column<T> = Omitted | Null | Value(v: T)

  /** The PostgreSQL errors an insert or update can raise, with the constraint's generated name. */
  datatype DbError =
    | NotNullViolation(column: string)
    | CheckViolation(constraint: string)
    | UniqueViolation(constraint: string)
    | ForeignKeyViolation(constraint: string)
    | IntegerOutOfRange(column: string)
    | RowSecurityViolation(table: string)

  /** The last value handed out by each SERIAL column's sequence. */
  datatype Serials = Serials(department: nat, course: nat, enrollment: nat, announcement: nat)

  datatype Store = Store(
    users: map<UserId, User>,
    departments: map<nat, Department>,
    courses: map<nat, Course>,
    enrollments: map<nat, Enrollment>,
    announcements: map<nat, Announcement>,
    serials: Serials)

  const Empty: Store := Store(map[], map[], map[], map[], map[], Serials(0, 0, 0, 0))

  predicate EmailTaken(s: Store, email: string) {
    exists k :: k in s.users && s.users[k].email == email
  }

  predicate DepartmentNameTaken(s: Store, name: string) {
    exists k :: k in s.departments && s.departments[k].name == name
  }

  predicate CourseCodeTaken(s: Store, code: string) {
    exists k :: k in s.courses && s.courses[k].code == code
  }

  predicate EnrollmentTaken(s: Store, student: UserId, course: nat) {
    exists k :: k in s.enrollments && s.enrollments[k].studentId == student && s.enrollments[k].courseId == course
  }

  // ---------------------------------------------------------------------------
  // The invariant every reachable store satisfies
  // ---------------------------------------------------------------------------

  /** Every row is stored under its own primary key. */
  ghost predicate KeysAreIds(s: Store) {
    && (forall k :: k in s.users ==> s.users[k].id == k)
    && (forall k :: k in s.departments ==> s.departments[k].id == k)
    && (forall k :: k in s.courses ==> s.courses[k].id == k)
    && (forall k :: k in s.enrollments ==> s.enrollments[k].id == k)
    && (forall k :: k in s.announcements ==> s.announcements[k].id == k)
  }

  /** The UNIQUE constraints: users.email, departments.name, courses.code,
      and enrollments (student_id, course_id). */
  ghost predicate UniqueKeys(s: Store) {
    && (forall a, b :: a in s.users && b in s.users && a != b ==> s.users[a].email != s.users[b].email)
    && (forall a, b :: a in s.departments && b in s.departments && a != b ==>
          s.departments[a].name != s.departments[b].name)
    && (forall a, b :: a in s.courses && b in s.courses && a != b ==> s.courses[a].code != s.courses[b].code)
    && (forall a, b :: a in s.enrollments && b in s.enrollments && a != b ==>
          s.enrollments[a].studentId != s.enrollments[b].studentId
          || s.enrollments[a].courseId != s.enrollments[b].courseId)
  }

  /** The FOREIGN KEY constraints: no row refers to a missing row. */
  ghost predicate NoOrphans(s: Store) {
    && (forall k :: k in s.courses ==> s.courses[k].departmentId in s.departments)
    && (forall k :: k in s.enrollments ==> s.enrollments[k].studentId in s.users)
    && (forall k :: k in s.enrollments ==> s.enrollments[k].courseId in s.courses)
    && (forall k :: k in s.announcements && s.announcements[k].authorId.Some? ==>
          s.announcements[k].authorId.value in s.users)
    && (forall k :: k in s.announcements && s.announcements[k].departmentId.Some? ==>
          s.announcements[k].departmentId.value in s.departments)
  }

  /** No SERIAL key exceeds its sequence, so the next value is fresh. */
  ghost predicate SerialsAhead(s: Store) {
    && (forall k :: k in s.departments ==> k <= s.serials.department)
    && (forall k :: k in s.courses ==> k <= s.serials.course)
    && (forall k :: k in s.enrollments ==> k <= s.serials.enrollment)
    && (forall k :: k in s.announcements ==> k <= s.serials.announcement)
  }

  ghost predicate WellFormed(s: Store) {
    KeysAreIds(s) && UniqueKeys(s) && NoOrphans(s) && SerialsAhead(s)
  }

  lemma EmptyWellFormed()
    ensures WellFormed(Empty)
  {
  }

  // ---------------------------------------------------------------------------
  // INSERT
  // ---------------------------------------------------------------------------

  /** users.role: `NOT NULL DEFAULT 'student'` with its CHECK constraint. */
  function ResolveRole(c: Column<string>): (r: Result<Role, DbError>)
    ensures c.Omitted? ==> r == Ok(DefaultRole)
    ensures c.Null? ==> r == Err(NotNullViolation("role"))
    ensures c.Value? ==> (r.Ok? <==> ParseRole(c.v).Some?)
    ensures c.Value? && r.Ok? ==> RoleName(r.value) == c.v
    ensures r.Err? ==> r.error in {NotNullViolation("role"), CheckViolation("users_role_check")}
  {
    match c
    case Omitted => Ok(DefaultRole)
    case Null => Err(NotNullViolation("role"))
    case Value(t) =>
      match ParseRole(t)
      case Some(role) => Ok(role)
      case None => Err(CheckViolation("users_role_check"))
  }

  /** enrollments.status: `DEFAULT 'active'` with its CHECK constraint; an
      explicit NULL passes the CHECK and is stored. */
  function ResolveStatus(c: Column<string>): (r: Result<Option<Status>, DbError>)
    ensures c.Omitted? ==> r == Ok(Some(DefaultStatus))
    ensures c.Null? ==> r == Ok(None)
    ensures c.Value? ==> (r.Ok? <==> ParseStatus(c.v).Some?)
    ensures c.Value? && r.Ok? ==> r.value.Some? && StatusName(r.value.value) == c.v
    ensures r.Err? ==> r.error == CheckViolation("enrollments_status_check")
  {
    match c
    case Omitted => Ok(Some(DefaultStatus))
    case Null => Ok(None)
    case Value(t) =>
      match ParseStatus(t)
      case Some(st) => Ok(Some(st))
      case None => Err(CheckViolation("enrollments_status_check"))
  }

  /** INSERT INTO users. The id comes from the auth account. */
  function InsertUser(s: Store, id: UserId, email: string, fullName: Option<string>, role: Column<string>,
                      department: Option<string>, now: Time): (r: Result<Store, DbError>)
    ensures r.Ok? <==> ResolveRole(role).Ok? && id !in s.users && !EmailTaken(s, email)
    ensures ResolveRole(role).Ok? && id in s.users ==> r == Err(UniqueViolation("users_pkey"))
    ensures ResolveRole(role).Ok? && id !in s.users && EmailTaken(s, email) ==>
              r == Err(UniqueViolation("users_email_key"))
    ensures r.Ok? ==> && r.value.users.Keys == s.users.Keys + {id}
                      && |r.value.users| == |s.users| + 1
                      && r.value.users[id] == User(id, email, fullName, ResolveRole(role).value, department, now, now)
                      && (forall k :: k in s.users ==> r.value.users[k] == s.users[k])
                      && r.value == s.(users := r.value.users)
  {
    var roleValue :- ResolveRole(role);
    if id in s.users then Err(UniqueViolation("users_pkey"))
    else if EmailTaken(s, email) then Err(UniqueViolation("users_email_key"))
    else Ok(s.(users := s.users[id := User(id, email, fullName, roleValue, department, now, now)]))
  }

  /** INSERT INTO departments; the id is the next value of its sequence. */
  function InsertDepartment(s: Store, name: string, description: Option<string>, now: Time): (r: Result<Store, DbError>)
    requires SerialsAhead(s)
    ensures r.Ok? <==> !DepartmentNameTaken(s, name)
    ensures r.Err? ==> r.error == UniqueViolation("departments_name_key")
    ensures r.Ok? ==> var id := r.value.serials.department;
                      && id == s.serials.department + 1
                      && r.value.departments.Keys == s.departments.Keys + {id}
                      && r.value.departments[id] == Department(id, name, description, now)
                      && (forall k :: k in s.departments ==> k in r.value.departments && r.value.departments[k] == s.departments[k])
                      && r.value == s.(departments := r.value.departments, serials := r.value.serials)
  {
    if DepartmentNameTaken(s, name) then Err(UniqueViolation("departments_name_key"))
    else
      var id := s.serials.department + 1;
      Ok(s.(departments := s.departments[id := Department(id, name, description, now)],
            serials := s.serials.(department := id)))
  }

  /** INSERT INTO courses. credits is a 32-bit INTEGER; there is no positive-credits check. */
  function InsertCourse(s: Store, code: string, title: string, description: Option<string>, credits: int,
                        departmentId: nat, now: Time): (r: Result<Store, DbError>)
    requires SerialsAhead(s)
    ensures r.Ok? <==> IntMin <= credits <= IntMax && !CourseCodeTaken(s, code) && departmentId in s.departments
    ensures !(IntMin <= credits <= IntMax) ==> r == Err(IntegerOutOfRange("credits"))
    ensures IntMin <= credits <= IntMax && CourseCodeTaken(s, code) ==> r == Err(UniqueViolation("courses_code_key"))
    ensures IntMin <= credits <= IntMax && !CourseCodeTaken(s, code) && departmentId !in s.departments ==>
              r == Err(ForeignKeyViolation("courses_department_id_fkey"))
    ensures r.Ok? ==> var id := r.value.serials.course;
                      && id == s.serials.course + 1
                      && r.value.courses.Keys == s.courses.Keys + {id}
                      && r.value.courses[id] == Course(id, code, title, description, credits, departmentId, now)
                      && (forall k :: k in s.courses ==> k in r.value.courses && r.value.courses[k] == s.courses[k])
                      && r.value == s.(courses := r.value.courses, serials := r.value.serials)
  {
    if !(IntMin <= credits <= IntMax) then Err(IntegerOutOfRange("credits"))
    else if CourseCodeTaken(s, code) then Err(UniqueViolation("courses_code_key"))
    else if departmentId !in s.departments then Err(ForeignKeyViolation("courses_department_id_fkey"))
    else
      var id := s.serials.course + 1;
      Ok(s.(courses := s.courses[id := Course(id, code, title, description, credits, departmentId, now)],
            serials := s.serials.(course := id)))
  }

  /** INSERT INTO enrollments. A second enrollment of the same student in the same course fails. */
  function InsertEnrollment(s: Store, studentId: UserId, courseId: nat, status: Column<string>, grade: Option<string>,
                            now: Time): (r: Result<Store, DbError>)
    requires SerialsAhead(s)
    ensures r.Ok? <==> && ResolveStatus(status).Ok?
                       && !EnrollmentTaken(s, studentId, courseId)
                       && studentId in s.users && courseId in s.courses
    ensures ResolveStatus(status).Ok? && EnrollmentTaken(s, studentId, courseId) ==>
              r == Err(UniqueViolation("enrollments_student_id_course_id_key"))
    ensures r.Ok? ==> var id := r.value.serials.enrollment;
                      && id == s.serials.enrollment + 1
                      && r.value.enrollments.Keys == s.enrollments.Keys + {id}
                      && r.value.enrollments[id] ==
                           Enrollment(id, studentId, courseId, now, ResolveStatus(status).value, grade)
                      && (forall k :: k in s.enrollments ==> k in r.value.enrollments && r.value.enrollments[k] == s.enrollments[k])
                      && r.value == s.(enrollments := r.value.enrollments, serials := r.value.serials)
  {
    var st :- ResolveStatus(status);
    if EnrollmentTaken(s, studentId, courseId) then Err(UniqueViolation("enrollments_student_id_course_id_key"))
    else if studentId !in s.users then Err(ForeignKeyViolation("enrollments_student_id_fkey"))
    else if courseId !in s.courses then Err(ForeignKeyViolation("enrollments_course_id_fkey"))
    else
      var id := s.serials.enrollment + 1;
      Ok(s.(enrollments := s.enrollments[id := Enrollment(id, studentId, courseId, now, st, grade)],
            serials := s.serials.(enrollment := id)))
  }

  /** INSERT INTO announcements; author and department are optional references. */
  function InsertAnnouncement(s: Store, title: string, content: string, authorId: Option<UserId>,
                              departmentId: Option<nat>, now: Time): (r: Result<Store, DbError>)
    requires SerialsAhead(s)
    ensures r.Ok? <==> && (authorId.Some? ==> authorId.value in s.users)
                       && (departmentId.Some? ==> departmentId.value in s.departments)
    ensures r.Ok? ==> var id := r.value.serials.announcement;
                      && id == s.serials.announcement + 1
                      && r.value.announcements.Keys == s.announcements.Keys + {id}
                      && r.value.announcements[id] == Announcement(id, title, content, authorId, departmentId, now, now)
                      && (forall k :: k in s.announcements ==>
                            k in r.value.announcements && r.value.announcements[k] == s.announcements[k])
                      && r.value == s.(announcements := r.value.announcements, serials := r.value.serials)
  {
    if authorId.Some? && authorId.value !in s.users then Err(ForeignKeyViolation("announcements_author_id_fkey"))
    else if departmentId.Some? && departmentId.value !in s.departments then
      Err(ForeignKeyViolation("announcements_department_id_fkey"))
    else
      var id := s.serials.announcement + 1;
      Ok(s.(announcements := s.announcements[id := Announcement(id, title, content, authorId, departmentId, now, now)],
            serials := s.serials.(announcement := id)))
  }

  // ---------------------------------------------------------------------------
  // UPDATE ... WHERE id = ...
  // ---------------------------------------------------------------------------

  /** UPDATE users SET full_name, department (and role when `role` is given)
      WHERE id = `id`. No other column changes: there is no trigger refreshing
      updated_at, and email is never written. A missing id updates no row. */
  function UpdateUser(s: Store, id: UserId, fullName: Option<string>, role: Option<Role>,
                      department: Option<string>): (r: Store)
    ensures r.users.Keys == s.users.Keys
    ensures forall k :: k in s.users && k != id ==> r.users[k] == s.users[k]
    ensures id in s.users ==> r.users[id] == s.users[id].(fullName := fullName,
                                                          role := role.GetOr(s.users[id].role),
                                                          department := department)
    ensures r == s.(users := r.users)
  {
    if id !in s.users then s
    else
      var u := s.users[id];
      s.(users := s.users[id := u.(fullName := fullName, role := role.GetOr(u.role), department := department)])
  }

  /** UPDATE departments SET name, description WHERE id = `id`: fails if
      another department already has the name. */
  function UpdateDepartment(s: Store, id: nat, name: string, description: Option<string>): (r: Result<Store, DbError>)
    ensures r.Err? <==> id in s.departments && exists k :: k in s.departments && k != id && s.departments[k].name == name
    ensures r.Err? ==> r.error == UniqueViolation("departments_name_key")
    ensures r.Ok? ==> && r.value.departments.Keys == s.departments.Keys
                      && (forall k :: k in s.departments && k != id ==> r.value.departments[k] == s.departments[k])
                      && (id in s.departments ==>
                            r.value.departments[id] == s.departments[id].(name := name, description := description))
                      && r.value == s.(departments := r.value.departments)
  {
    if id !in s.departments then Ok(s)
    else if exists k :: k in s.departments && k != id && s.departments[k].name == name then
      Err(UniqueViolation("departments_name_key"))
    else Ok(s.(departments := s.departments[id := s.departments[id].(name := name, description := description)]))
  }

  // ---------------------------------------------------------------------------
  // Every successful write keeps the invariant
  // ---------------------------------------------------------------------------

  /** Adding a users row with a fresh id and an unused email keeps the invariant. */
  lemma AddUserWellFormed(s: Store, u: User)
    requires WellFormed(s)
    requires u.id !in s.users
    requires forall k :: k in s.users ==> s.users[k].email != u.email
    ensures WellFormed(s.(users := s.users[u.id := u]))
  {
    var t := s.(users := s.users[u.id := u]);
    assert KeysAreIds(t);
    assert SerialsAhead(t);
    assert NoOrphans(t);
    assert UniqueKeys(t) by {
      forall a, b | a in t.users && b in t.users && a != b
        ensures t.users[a].email != t.users[b].email
      {
      }
    }
  }

  lemma InsertUserWellFormed(s: Store, id: UserId, email: string, fullName: Option<string>, role: Column<string>,
                             department: Option<string>, now: Time)
    requires WellFormed(s)
    requires ResolveRole(role).Ok? && id !in s.users && !EmailTaken(s, email)
    ensures InsertUser(s, id, email, fullName, role, department, now).Ok?
    ensures WellFormed(InsertUser(s, id, email, fullName, role, department, now).value)
  {
    var u := User(id, email, fullName, ResolveRole(role).value, department, now, now);
    assert InsertUser(s, id, email, fullName, role, department, now).value == s.(users := s.users[id := u]);
    AddUserWellFormed(s, u);
  }

  lemma InsertDepartmentWellFormed(s: Store, name: string, description: Option<string>, now: Time)
    requires WellFormed(s)
    requires InsertDepartment(s, name, description, now).Ok?
    ensures WellFormed(InsertDepartment(s, name, description, now).value)
  {
    var t := InsertDepartment(s, name, description, now).value;
    var id := t.serials.department;
    assert id !in s.departments;
    forall a, b | a in t.departments && b in t.departments && a != b
      ensures t.departments[a].name != t.departments[b].name
    {
      if a == id {
        assert !(s.departments[b].name == name);
      } else if b == id {
        assert !(s.departments[a].name == name);
      }
    }
  }

  lemma InsertCourseWellFormed(s: Store, code: string, title: string, description: Option<string>, credits: int,
                               departmentId: nat, now: Time)
    requires WellFormed(s)
    requires InsertCourse(s, code, title, description, credits, departmentId, now).Ok?
    ensures WellFormed(InsertCourse(s, code, title, description, credits, departmentId, now).value)
  {
    var t := InsertCourse(s, code, title, description, credits, departmentId, now).value;
    var id := t.serials.course;
    assert id !in s.courses;
    forall a, b | a in t.courses && b in t.courses && a != b
      ensures t.courses[a].code != t.courses[b].code
    {
      if a == id {
        assert !(s.courses[b].code == code);
      } else if b == id {
        assert !(s.courses[a].code == code);
      }
    }
  }

  /** Adding an enrollments row with a fresh key, an unused (student, course)
      pair and existing references keeps the invariant. */
  lemma AddEnrollmentWellFormed(s: Store, e: Enrollment, serial: nat)
    requires WellFormed(s)
    requires e.id !in s.enrollments && s.serials.enrollment <= serial && e.id <= serial
    requires forall k :: k in s.enrollments ==>
               (s.enrollments[k].studentId != e.studentId || s.enrollments[k].courseId != e.courseId)
    requires e.studentId in s.users && e.courseId in s.courses
    ensures WellFormed(s.(enrollments := s.enrollments[e.id := e], serials := s.serials.(enrollment := serial)))
  {
    var es := s.enrollments[e.id := e];
    var t := s.(enrollments := es, serials := s.serials.(enrollment := serial));
    assert KeysAreIds(t);
    assert SerialsAhead(t);
    assert NoOrphans(t) by {
      assert forall k :: k in es ==> es[k].studentId in t.users && es[k].courseId in t.courses;
    }
    assert UniqueKeys(t) by {
      forall a, b | a in es && b in es && a != b
        ensures es[a].studentId != es[b].studentId || es[a].courseId != es[b].courseId
      {
        if a == e.id {
          assert es[b] == s.enrollments[b];
        } else if b == e.id {
          assert es[a] == s.enrollments[a];
        } else {
          assert es[a] == s.enrollments[a] && es[b] == s.enrollments[b];
        }
      }
    }
  }

  lemma InsertEnrollmentWellFormed(s: Store, studentId: UserId, courseId: nat, status: Column<string>,
                                   grade: Option<string>, now: Time)
    requires WellFormed(s)
    requires InsertEnrollment(s, studentId, courseId, status, grade, now).Ok?
    ensures WellFormed(InsertEnrollment(s, studentId, courseId, status, grade, now).value)
  {
    var id := s.serials.enrollment + 1;
    var e := Enrollment(id, studentId, courseId, now, ResolveStatus(status).value, grade);
    assert InsertEnrollment(s, studentId, courseId, status, grade, now).value
        == s.(enrollments := s.enrollments[id := e], serials := s.serials.(enrollment := id));
    assert !EnrollmentTaken(s, studentId, courseId);
    AddEnrollmentWellFormed(s, e, id);
  }

  lemma InsertAnnouncementWellFormed(s: Store, title: string, content: string, authorId: Option<UserId>,
                                     departmentId: Option<nat>, now: Time)
    requires WellFormed(s)
    requires InsertAnnouncement(s, title, content, authorId, departmentId, now).Ok?
    ensures WellFormed(InsertAnnouncement(s, title, content, authorId, departmentId, now).value)
  {
  }

  lemma UpdateUserWellFormed(s: Store, id: UserId, fullName: Option<string>, role: Option<Role>,
                             department: Option<string>)
    requires WellFormed(s)
    ensures WellFormed(UpdateUser(s, id, fullName, role, department))
  {
  }

  lemma UpdateDepartmentWellFormed(s: Store, id: nat, name: string, description: Option<string>)
    requires WellFormed(s)
    requires UpdateDepartment(s, id, name, description).Ok?
    ensures WellFormed(UpdateDepartment(s, id, name, description).value)
  {
    var t := UpdateDepartment(s, id, name, description).value;
    forall a, b | a in t.departments && b in t.departments && a != b
      ensures t.departments[a].name != t.departments[b].name
    {
      if a == id {
        assert !(s.departments[b].name == name);
      } else if b == id {
        assert !(s.departments[a].name == name);
      }
    }
  }
}
