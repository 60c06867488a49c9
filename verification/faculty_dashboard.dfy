/** The faculty dashboard: the courses of the faculty member's department,
    the active enrollments in them, and their own latest announcements. The
    department is matched by name, as users.department holds a name. */
module FacultyDashboard {
  import opened Wrappers
  import opened Schema
  import opened Store
  import opened Policy
  import opened Queries
  import opened Seqs
  import opened Order

  /** A course with its embedded `enrollments:id (count)`. */
  datatype CourseCard = CourseCard(course: Course, enrollments: nat)

  datatype View =
    | NotAssigned
    | Overview(courses: seq<CourseCard>, students: nat, announcements: seq<Announcement>)

  /** `.select("id").eq("name", department).single()`: the department of
      that name, or an error (`None`) unless exactly one row matches. */
  function DepartmentNamed(departments: seq<Department>, name: string): (r: Option<Department>)
    ensures r.Some? <==> |Filter(departments, (d: Department) => d.name == name)| == 1
    ensures r.Some? ==> r.value in departments && r.value.name == name
  {
    var matching := Filter(departments, (d: Department) => d.name == name);
    if |matching| == 1 then
      assert matching[0] in matching;
      Some(matching[0])
    else None
  }

  /** The ids of a list of courses. */
  function IdsOf(courses: seq<Course>): (r: set<nat>)
    ensures forall id :: id in r <==> exists c :: c in courses && c.id == id
  {
    set c | c in courses :: c.id
  }

  /** `.eq("department_id", id).order("code")` on courses. */
  function CoursesOf(courses: seq<Course>, departmentId: nat): (r: seq<Course>)
    ensures SortedBy(r, ByText(CourseCode))
    ensures forall c :: c in r <==> c in courses && c.departmentId == departmentId
  {
    var mine := Filter(courses, (c: Course) => c.departmentId == departmentId);
    var r := CoursesByCode(mine);
    assert forall c :: c in r <==> c in multiset(mine);
    r
  }

  /** The course of each enrollment row, in order. */
  function CourseIds(rows: seq<Enrollment>): (r: seq<nat>)
    ensures |r| == |rows|
    ensures forall i :: 0 <= i < |rows| ==> r[i] == rows[i].courseId
  {
    seq(|rows|, i requires 0 <= i < |rows| => rows[i].courseId)
  }

  /** Filtering the rows on one course keeps as many rows as that course
      occurs among their course ids. */
  lemma {:induction false} FilterCountsCourse(rows: seq<Enrollment>, keep: Enrollment -> bool, courseId: nat)
    requires forall e :: keep(e) <==> e.courseId == courseId
    ensures |Filter(rows, keep)| == multiset(CourseIds(rows))[courseId]
    decreases |rows|
  {
    if rows != [] {
      FilterCountsCourse(rows[1..], keep, courseId);
      assert CourseIds(rows) == [rows[0].courseId] + CourseIds(rows[1..]);
    }
  }

  /** The rows counted by `enrollments:id (count)` for one course: how many
      of the readable enrollment rows name it. */
  function EnrolledIn(visible: seq<Enrollment>, courseId: nat): (r: nat)
    ensures r == multiset(CourseIds(visible))[courseId]
    ensures r <= |visible|
    ensures r == 0 <==> forall e :: e in visible ==> e.courseId != courseId
  {
    var keep := (e: Enrollment) => e.courseId == courseId;
    FilterCountsCourse(visible, keep, courseId);
    NoRowsOfCourse(visible, keep, courseId);
    |Filter(visible, keep)|
  }

  /** The filter on one course is empty exactly when no row names the course. */
  lemma NoRowsOfCourse(rows: seq<Enrollment>, keep: Enrollment -> bool, courseId: nat)
    requires forall e :: keep(e) <==> e.courseId == courseId
    ensures |Filter(rows, keep)| == 0 <==> forall e :: e in rows ==> e.courseId != courseId
  {
    if |Filter(rows, keep)| != 0 {
      assert Filter(rows, keep)[0] in Filter(rows, keep);
    }
  }

  function Cards(courses: seq<Course>, visible: seq<Enrollment>): (r: seq<CourseCard>)
    ensures |r| == |courses|
    ensures forall i :: 0 <= i < |r| ==> r[i].course == courses[i] && r[i].enrollments == EnrolledIn(visible, courses[i].id)
  {
    seq(|courses|, i requires 0 <= i < |courses| => CourseCard(courses[i], EnrolledIn(visible, courses[i].id)))
  }

  /** The enrollment rows `.eq("status", "active").in("course_id", ids)` keeps. */
  function ActiveIn(ids: set<nat>): (keep: Enrollment -> bool)
    ensures forall e :: keep(e) <==> e.status == Some(Active) && e.courseId in ids
  {
    (e: Enrollment) => e.status == Some(Active) && e.courseId in ids
  }

  /** The announcements `.eq("author_id", userId)` keeps. */
  function AuthoredBy(userId: UserId): (keep: Announcement -> bool)
    ensures forall a :: keep(a) <==> a.authorId == Some(userId)
  {
    (a: Announcement) => a.authorId == Some(userId)
  }

  /** `.eq("author_id", userId).order("created_at", { ascending: false }).limit(5)`:
      the five newest of the user's own announcements, or all when fewer. */
  function LatestBy(announcements: seq<Announcement>, userId: UserId): (r: seq<Announcement>)
    ensures var own := Filter(announcements, AuthoredBy(userId));
            && |r| == (if |own| < 5 then |own| else 5)
            && multiset(r) <= multiset(own)
            && (forall u, v :: u in own && u !in r && v in r ==> NewestFirst(AnnouncementCreated)(v, u))
    ensures SortedBy(r, NewestFirst(AnnouncementCreated))
    ensures forall a :: a in r ==> a in announcements && a.authorId == Some(userId)
  {
    var own := Filter(announcements, AuthoredBy(userId));
    NewestFirstIsTotalPreorder(AnnouncementCreated);
    var r := Top(own, NewestFirst(AnnouncementCreated), 5);
    assert forall a :: a in r ==> a in multiset(own);
    r
  }

  /** None of the user's announcements left out of the five is newer than one shown. */
  lemma LatestAreNewest(announcements: seq<Announcement>, userId: UserId, u: Announcement, v: Announcement)
    requires u in announcements && u.authorId == Some(userId)
    requires u !in LatestBy(announcements, userId) && v in LatestBy(announcements, userId)
    ensures v.createdAt >= u.createdAt
  {
    assert u in Filter(announcements, AuthoredBy(userId));
    assert NewestFirst(AnnouncementCreated)(v, u);
    assert AnnouncementCreated(v) >= AnnouncementCreated(u);
  }

  /** `if (!department)`: no department, or the empty text, means not assigned. */
  predicate Assigned(department: Option<string>) {
    department.Some? && department.value != ""
  }

  /** `fetchData` for the signed-in faculty member `userId` whose users row
      names `department`, followed by the render. The four SELECTs run in
      order inside one `try`: the department lookup (`departments` are that
      table's rows), the courses with their embedded counts (`courseRows`,
      counting the readable rows of `enrollments`), the active-enrollment
      count (`countError` when it fails) and the latest announcements
      (`announcementRows`). The first failure ends the load, keeping what
      was set before it. Without a department nothing is queried. */
  function Load(userId: UserId, department: Option<string>, s: Store, departments: seq<Department>,
                courseRows: Result<seq<Course>, DbError>, enrollments: seq<Enrollment>, countError: Option<DbError>,
                announcementRows: Result<seq<Announcement>, DbError>): (r: View)
    ensures r.NotAssigned? <==> !Assigned(department)
    ensures Assigned(department) && (DepartmentNamed(departments, department.value).None? || courseRows.Err?) ==>
              r == Overview([], 0, [])
    ensures Assigned(department) && DepartmentNamed(departments, department.value).Some? && courseRows.Ok? ==>
              var d := DepartmentNamed(departments, department.value).value;
              var mine := CoursesOf(courseRows.value, d.id);
              var visible := VisibleEnrollments(Some(userId), s, enrollments);
              && |r.courses| == |mine|
              && (forall i :: 0 <= i < |r.courses| ==>
                    r.courses[i].course == mine[i]
                    && r.courses[i].enrollments == EnrolledIn(visible, r.courses[i].course.id))
              && (countError.Some? ==> r.students == 0 && r.announcements == [])
              && (countError.None? ==> r.students == |Filter(visible, ActiveIn(IdsOf(mine)))|)
              && (countError.None? && announcementRows.Err? ==> r.announcements == [])
              && (countError.None? && announcementRows.Ok? ==> r.announcements == LatestBy(announcementRows.value, userId))
  {
    if !Assigned(department) then NotAssigned
    else
      match DepartmentNamed(departments, department.value)
      case None => Overview([], 0, [])
      case Some(d) =>
        match courseRows
        case Err(_) => Overview([], 0, [])
        case Ok(courses) =>
          var mine := CoursesOf(courses, d.id);
          var visible := VisibleEnrollments(Some(userId), s, enrollments);
          var cards := Cards(mine, visible);
          if countError.Some? then Overview(cards, 0, [])
          else
            var students := |Filter(visible, ActiveIn(IdsOf(mine)))|;
            match announcementRows
            case Err(_) => Overview(cards, students, [])
            case Ok(rows) => Overview(cards, students, LatestBy(rows, userId))
  }

  /** Under a consistent store the "Students" figure counts every active
      enrollment row of the department's courses: the row-level security
      lets a faculty member read all of them. It counts rows, so a student
      in two of the courses counts twice. */
  lemma StudentsFigureCountsAllActiveRows(userId: UserId, name: string, s: Store, departments: seq<Department>,
                                          courses: seq<Course>, enrollments: seq<Enrollment>,
                                          announcementRows: Result<seq<Announcement>, DbError>)
    requires userId in s.users && s.users[userId].role == Faculty && s.users[userId].department == Some(name)
    requires name != ""
    requires DepartmentNamed(departments, name).Some?
    requires var d := DepartmentNamed(departments, name).value; d.id in s.departments && s.departments[d.id] == d
    requires forall c :: c in courses ==> c.id in s.courses && s.courses[c.id] == c
    ensures var d := DepartmentNamed(departments, name).value;
            Load(userId, Some(name), s, departments, Ok(courses), enrollments, None, announcementRows).students ==
              |Filter(enrollments, ActiveIn(IdsOf(CoursesOf(courses, d.id))))|
  {
    var d := DepartmentNamed(departments, name).value;
    var ids := IdsOf(CoursesOf(courses, d.id));
    forall k | 0 <= k < |enrollments| && ActiveIn(ids)(enrollments[k])
      ensures EnrollmentVisible(Some(userId), s)(enrollments[k])
    {
      var c :| c in CoursesOf(courses, d.id) && c.id == enrollments[k].courseId;
      assert TeachesCourse(Some(userId), enrollments[k].courseId, s);
    }
    FilterImplied(enrollments, EnrollmentVisible(Some(userId), s), ActiveIn(ids));
  }
}
