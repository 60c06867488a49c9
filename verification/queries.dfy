/** The SELECT statements the pages issue, as functions of a table's rows:
    the rows a caller may read (row-level security acts as a filter on
    SELECT), and the ORDER BY clauses as sorts that keep every row. */
module Queries {
  import opened Wrappers
  import opened Schema
  import opened Store
  import opened Policy
  import opened Access
  import opened Seqs
  import opened Order

  function DepartmentName(d: Department): string { d.name }
  function CourseCode(c: Course): string { c.code }
  function UserCreated(u: User): Time { u.createdAt }
  function AnnouncementCreated(a: Announcement): Time { a.createdAt }
  function EnrollmentDate(e: Enrollment): Time { e.enrollmentDate }

  /** `rows` is what `SELECT * FROM t` returns for the table `m`: one entry
      per row, every row among them, and nothing that is not a row. */
  ghost predicate IsScanOf<K, V>(rows: seq<V>, m: map<K, V>) {
    && |rows| == |m|
    && (forall k :: k in m ==> m[k] in rows)
    && (forall v :: v in rows ==> v in m.Values)
  }

  /** `SELECT * FROM t`: every row of the table once, in some storage order. */
  method Scan<K, V(==)>(m: map<K, V>) returns (rows: seq<V>)
    ensures IsScanOf(rows, m)
  {
    var keys := m.Keys;
    rows := [];
    while keys != {}
      invariant keys <= m.Keys
      invariant |rows| + |keys| == |m|
      invariant forall k :: k in m && k !in keys ==> m[k] in rows
      invariant forall v :: v in rows ==> v in m.Values
      decreases |keys|
    {
      var k :| k in keys;
      rows := rows + [m[k]];
      keys := keys - {k};
    }
  }

  /** `.order("name")` on departments. */
  function DepartmentsByName(rows: seq<Department>): (r: seq<Department>)
    ensures SortedBy(r, ByText(DepartmentName))
    ensures multiset(r) == multiset(rows)
  {
    ByTextIsTotalPreorder(DepartmentName);
    SortBy(rows, ByText(DepartmentName))
  }

  /** `.order("code")` on courses. */
  function CoursesByCode(rows: seq<Course>): (r: seq<Course>)
    ensures SortedBy(r, ByText(CourseCode))
    ensures multiset(r) == multiset(rows)
  {
    ByTextIsTotalPreorder(CourseCode);
    SortBy(rows, ByText(CourseCode))
  }

  /** `.order("created_at", { ascending: false })` on users. */
  function UsersNewestFirst(rows: seq<User>): (r: seq<User>)
    ensures SortedBy(r, NewestFirst(UserCreated))
    ensures multiset(r) == multiset(rows)
  {
    NewestFirstIsTotalPreorder(UserCreated);
    SortBy(rows, NewestFirst(UserCreated))
  }

  /** `.order("created_at", { ascending: false })` on announcements. */
  function AnnouncementsNewestFirst(rows: seq<Announcement>): (r: seq<Announcement>)
    ensures SortedBy(r, NewestFirst(AnnouncementCreated))
    ensures multiset(r) == multiset(rows)
  {
    NewestFirstIsTotalPreorder(AnnouncementCreated);
    SortBy(rows, NewestFirst(AnnouncementCreated))
  }

  /** `.order("enrollment_date", { ascending: false })` on enrollments. */
  function EnrollmentsNewestFirst(rows: seq<Enrollment>): (r: seq<Enrollment>)
    ensures SortedBy(r, NewestFirst(EnrollmentDate))
    ensures multiset(r) == multiset(rows)
  {
    NewestFirstIsTotalPreorder(EnrollmentDate);
    SortBy(rows, NewestFirst(EnrollmentDate))
  }

  /** The session user's own row, as `.from("users").select(...).eq("id", uid).single()`
      reads it: every user may read their own row, so it is found exactly when
      there is a session and a users row for it. */
  function SessionUser(caller: Caller, s: Store): (r: Option<User>)
    requires KeysAreIds(s)
    ensures r.Some? <==> caller.Some? && caller.value in s.users
    ensures r.Some? ==> r.value == s.users[caller.value]
  {
    if caller.None? || caller.value !in s.users then None
    else
      var own := s.users[caller.value];
      UsersRules(caller, own, own, s);
      if Visible(caller, UserRow(own), s) then Some(own) else None
  }

  /** The role the admin-only pages read for the session user (`null` when unset). */
  function SessionRole(caller: Caller, s: Store): (r: Option<Role>)
    requires KeysAreIds(s)
    ensures r.Some? <==> caller.Some? && caller.value in s.users
    ensures r.Some? ==> r.value == s.users[caller.value].role
  {
    match SessionUser(caller, s)
    case None => None
    case Some(u) => Some(u.role)
  }

  /** The users rows a SELECT by `caller` returns. */
  function VisibleUsers(caller: Caller, s: Store, rows: seq<User>): (r: seq<User>)
    ensures forall u :: u in r <==> u in rows && (caller == Some(u.id) || IsAdmin(caller, s))
  {
    assert forall u: User :: Visible(caller, UserRow(u), s) <==> caller == Some(u.id) || IsAdmin(caller, s) by {
      forall u: User
        ensures Visible(caller, UserRow(u), s) <==> caller == Some(u.id) || IsAdmin(caller, s)
      {
        UsersRules(caller, u, u, s);
      }
    }
    Filter(rows, (u: User) => Visible(caller, UserRow(u), s))
  }

  /** Whether `caller` may read an enrollment, as a filter. */
  function EnrollmentVisible(caller: Caller, s: Store): (visible: Enrollment -> bool)
    ensures forall e :: visible(e) <==>
              caller == Some(e.studentId) || TeachesCourse(caller, e.courseId, s) || IsAdmin(caller, s)
  {
    assert forall e: Enrollment :: Visible(caller, EnrollmentRow(e), s) <==>
             caller == Some(e.studentId) || TeachesCourse(caller, e.courseId, s) || IsAdmin(caller, s) by {
      forall e: Enrollment
        ensures Visible(caller, EnrollmentRow(e), s) <==>
                caller == Some(e.studentId) || TeachesCourse(caller, e.courseId, s) || IsAdmin(caller, s)
      {
        EnrollmentRules(caller, e, e, s);
      }
    }
    (e: Enrollment) => Visible(caller, EnrollmentRow(e), s)
  }

  /** The enrollments rows a SELECT by `caller` returns. */
  function VisibleEnrollments(caller: Caller, s: Store, rows: seq<Enrollment>): (r: seq<Enrollment>)
    ensures forall e :: e in r <==>
              e in rows && (caller == Some(e.studentId) || TeachesCourse(caller, e.courseId, s) || IsAdmin(caller, s))
  {
    Filter(rows, EnrollmentVisible(caller, s))
  }

  /** An admin reads the whole users table. */
  lemma AdminSeesAllUsers(caller: Caller, s: Store, rows: seq<User>)
    requires IsAdmin(caller, s)
    ensures VisibleUsers(caller, s, rows) == rows
  {
    forall k | 0 <= k < |rows|
      ensures Visible(caller, UserRow(rows[k]), s)
    {
      UsersRules(caller, rows[k], rows[k], s);
    }
    FilterKeepsAll(rows, (u: User) => Visible(caller, UserRow(u), s));
  }
}
