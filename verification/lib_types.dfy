/** The second set of record shapes (lib/types.ts), used by the courses and
    students pages: every field but the id may be absent, and a course
    carries a free-text department and a string id. */
module LibTypes {
  import opened Wrappers
  import opened Schema
  import opened Decimal

  /** `status?: "active" | "inactive"`. */
  datatype CourseStatus = CourseActive | CourseInactive

  /** `UserProfile`: only `id` is required. */
  datatype UserProfile = UserProfile(
    id: string,
    fullName: Option<string>,
    email: Option<string>,
    avatarUrl: Option<string>,
    role: Option<Role>,
    studentId: Option<string>,
    department: Option<string>,
    createdAt: Option<Time>,
    updatedAt: Option<Time>)

  /** This `Course`: code, title and credits required, the rest optional. */
  datatype CatalogCourse = CatalogCourse(
    id: string,
    code: string,
    title: string,
    description: Option<string>,
    credits: int,
    department: Option<string>,
    facultyId: Option<string>,
    status: Option<CourseStatus>,
    createdAt: Option<Time>,
    updatedAt: Option<Time>)

  /** A courses table row read through this shape: the columns it shares
      keep their values (the numeric id as its decimal text), and the
      fields the table lacks (department, faculty_id, status, updated_at)
      are absent. */
  function FromCoursesRow(c: Course): (r: CatalogCourse)
    ensures ParseNat(r.id) == Some(c.id)
    ensures r.code == c.code && r.title == c.title && r.credits == c.credits
    ensures r.description == c.description && r.createdAt == Some(c.createdAt)
    ensures r.department.None? && r.facultyId.None? && r.status.None? && r.updatedAt.None?
  {
    ParseNatToString(c.id);
    CatalogCourse(NatToString(c.id), c.code, c.title, c.description, c.credits, None, None, None, Some(c.createdAt), None)
  }

  /** Distinct course rows keep distinct ids under this shape. */
  lemma FromCoursesRowKeepsIdsApart(a: Course, b: Course)
    requires a.id != b.id
    ensures FromCoursesRow(a).id != FromCoursesRow(b).id
  {
    if NatToString(a.id) == NatToString(b.id) {
      NatToStringInjective(a.id, b.id);
    }
  }
}
