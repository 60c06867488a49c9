/** The five tables' record shapes (types/index.ts) together with the column
    domains the DDL enforces: the role and status CHECK constraints and their
    defaults. Timestamps are abstract ordered values. */
module Schema {
  import opened Wrappers

  /** A `TIMESTAMP WITH TIME ZONE`, kept only as an ordered value. */
  type Time = int

  /** A users.id: the UUID of the matching auth account. */
  type UserId = string

  /** users.role: `CHECK (role IN ('admin', 'faculty', 'student'))`. */
  datatype Role = Admin | Faculty | Student

  /** enrollments.status: `CHECK (status IN ('active', 'completed', 'dropped'))`. */
  datatype Status = Active | Completed | Dropped

  const DefaultRole: Role := Student
  const DefaultStatus: Status := Active

  function RoleName(r: Role): string {
    match r
    case Admin => "admin"
    case Faculty => "faculty"
    case Student => "student"
  }

  /** The CHECK constraint on users.role: `Some` exactly for the three allowed texts. */
  function ParseRole(s: string): (r: Option<Role>)
    ensures r.Some? <==> s == "admin" || s == "faculty" || s == "student"
    ensures r.Some? ==> RoleName(r.value) == s
  {
    if s == "admin" then Some(Admin)
    else if s == "faculty" then Some(Faculty)
    else if s == "student" then Some(Student)
    else None
  }

  function StatusName(st: Status): string {
    match st
    case Active => "active"
    case Completed => "completed"
    case Dropped => "dropped"
  }

  /** The CHECK constraint on enrollments.status. */
  function ParseStatus(s: string): (r: Option<Status>)
    ensures r.Some? <==> s == "active" || s == "completed" || s == "dropped"
    ensures r.Some? ==> StatusName(r.value) == s
  {
    if s == "active" then Some(Active)
    else if s == "completed" then Some(Completed)
    else if s == "dropped" then Some(Dropped)
    else None
  }

  /** Every role's stored text passes the CHECK constraint and reads back as itself. */
  lemma RoleRoundTrip(r: Role)
    ensures ParseRole(RoleName(r)) == Some(r)
  {
    match r
    case Admin =>
    case Faculty =>
    case Student =>
  }

  /** Every status's stored text passes the CHECK constraint and reads back as itself. */
  lemma StatusRoundTrip(st: Status)
    ensures ParseStatus(StatusName(st)) == Some(st)
  {
    match st
    case Active =>
    case Completed =>
    case Dropped =>
  }

  /** A users row; full_name and department are nullable, email is not. */
  datatype User = User(
    id: UserId,
    email: string,
    fullName: Option<string>,
    role: Role,
    department: Option<string>,
    createdAt: Time,
    updatedAt: Time)

  /** A departments row; description is nullable, name is not. */
  datatype Department = Department(
    id: nat,
    name: string,
    description: Option<string>,
    createdAt: Time)

  /** A courses row; department_id is required. */
  datatype Course = Course(
    id: nat,
    code: string,
    title: string,
    description: Option<string>,
    credits: int,
    departmentId: nat,
    createdAt: Time)

  /** An enrollments row. The DDL gives status a default and a CHECK but no
      NOT NULL, so an explicit NULL can be stored: status is nullable here. */
  datatype Enrollment = Enrollment(
    id: nat,
    studentId: UserId,
    courseId: nat,
    enrollmentDate: Time,
    status: Option<Status>,
    grade: Option<string>)

  /** An announcements row; author_id and department_id are nullable
      (a null department means "All departments"). */
  datatype Announcement = Announcement(
    id: nat,
    title: string,
    content: string,
    authorId: Option<UserId>,
    departmentId: Option<nat>,
    createdAt: Time,
    updatedAt: Time)

  /** PostgreSQL's INTEGER column range. */
  const IntMin: int := -0x8000_0000
  const IntMax: int := 0x7FFF_FFFF
}
