/** The admin dashboard: six head-only count queries and the five newest
    users. Every query runs under the caller's row-level security. */
module AdminDashboard {
  import opened Wrappers
  import opened Schema
  import opened Store
  import opened Policy
  import opened Queries
  import opened Seqs
  import opened Order

  datatype Stats = Stats(users: nat, students: nat, faculty: nat, courses: nat, departments: nat, announcements: nat)

  const ZeroStats: Stats := Stats(0, 0, 0, 0, 0, 0)

  /** What `select("*", { count: "exact", head: true })` returns: a count
      (possibly null) or an error. */
  type CountResponse = Result<Option<nat>, DbError>

  datatype Responses = Responses(users: CountResponse, students: CountResponse, faculty: CountResponse,
                                 courses: CountResponse, departments: CountResponse, announcements: CountResponse)

  predicate AllSucceeded(rs: Responses) {
    rs.users.Ok? && rs.students.Ok? && rs.faculty.Ok? && rs.courses.Ok? && rs.departments.Ok? && rs.announcements.Ok?
  }

  /** `count || 0`. */
  function CountOrZero(c: Option<nat>): (r: nat)
    ensures c.Some? ==> r == c.value
    ensures c.None? ==> r == 0
  {
    c.GetOr(0)
  }

  datatype View = View(stats: Stats, recentUsers: seq<User>)

  /** `fetchData`: the counts are asked in order and stored only when all six
      succeed; the recent users are asked afterwards. */
  function Load(rs: Responses, recent: Result<seq<User>, DbError>): (r: View)
    ensures !AllSucceeded(rs) ==> r == View(ZeroStats, [])
    ensures AllSucceeded(rs) ==>
              && r.stats.users == CountOrZero(rs.users.value)
              && r.stats.students == CountOrZero(rs.students.value)
              && r.stats.faculty == CountOrZero(rs.faculty.value)
              && r.stats.courses == CountOrZero(rs.courses.value)
              && r.stats.departments == CountOrZero(rs.departments.value)
              && r.stats.announcements == CountOrZero(rs.announcements.value)
    ensures recent.Err? ==> r.recentUsers == []
    ensures AllSucceeded(rs) && recent.Ok? ==> r.recentUsers == recent.value
  {
    if !AllSucceeded(rs) then View(ZeroStats, [])
    else
      var stats := Stats(CountOrZero(rs.users.value), CountOrZero(rs.students.value), CountOrZero(rs.faculty.value),
                         CountOrZero(rs.courses.value), CountOrZero(rs.departments.value),
                         CountOrZero(rs.announcements.value));
      match recent
      case Err(_) => View(stats, [])
      case Ok(us) => View(stats, us)
  }

  /** The users rows `.eq("role", role)` keeps (every row without a role filter). */
  function WithRole(users: seq<User>, role: Option<Role>): (r: seq<User>)
    ensures forall u :: u in r <==> u in users && (role.None? || u.role == role.value)
  {
    Filter(users, (u: User) => role.None? || u.role == role.value)
  }

  /** The six counts as the database computes them from the tables' rows
      (`users` and the rest are each table's rows; users rows are counted only
      when the caller may read them). */
  function Counted(caller: Caller, s: Store, users: seq<User>, courses: seq<Course>, departments: seq<Department>,
                   announcements: seq<Announcement>): (r: Responses)
    ensures AllSucceeded(r)
    ensures r.users == Ok(Some(|VisibleUsers(caller, s, users)|))
    ensures r.students == Ok(Some(|WithRole(VisibleUsers(caller, s, users), Some(Student))|))
    ensures r.faculty == Ok(Some(|WithRole(VisibleUsers(caller, s, users), Some(Faculty))|))
    ensures r.courses == Ok(Some(|courses|))
    ensures r.departments == Ok(Some(|departments|))
    ensures r.announcements == Ok(Some(|announcements|))
  {
    var visible := VisibleUsers(caller, s, users);
    Responses(Ok(Some(|visible|)), Ok(Some(|WithRole(visible, Some(Student))|)), Ok(Some(|WithRole(visible, Some(Faculty))|)),
              Ok(Some(|courses|)), Ok(Some(|departments|)), Ok(Some(|announcements|)))
  }

  /** The students and faculty counts never add up to more than the users count. */
  lemma RoleCountsWithinTotal(caller: Caller, s: Store, users: seq<User>, courses: seq<Course>,
                              departments: seq<Department>, announcements: seq<Announcement>,
                              recent: Result<seq<User>, DbError>)
    ensures var st := Load(Counted(caller, s, users, courses, departments, announcements), recent).stats;
            st.students + st.faculty <= st.users
  {
    var visible := VisibleUsers(caller, s, users);
    FilterDisjointCount(visible, (u: User) => Some(Student).None? || u.role == Some(Student).value,
                        (u: User) => Some(Faculty).None? || u.role == Some(Faculty).value);
  }

  /** For an admin the users figures cover the whole table. */
  lemma AdminCountsWholeTable(caller: Caller, s: Store, users: seq<User>, courses: seq<Course>,
                              departments: seq<Department>, announcements: seq<Announcement>,
                              recent: Result<seq<User>, DbError>)
    requires IsAdmin(caller, s)
    ensures var st := Load(Counted(caller, s, users, courses, departments, announcements), recent).stats;
            && st.users == |users|
            && st.students == |WithRole(users, Some(Student))|
            && st.faculty == |WithRole(users, Some(Faculty))|
  {
    AdminSeesAllUsers(caller, s, users);
  }

  /** When each SELECT reads its whole table, an admin's figures are the
      sizes of the store's tables. */
  lemma FiguresMatchStore(caller: Caller, s: Store, users: seq<User>, courses: seq<Course>,
                          departments: seq<Department>, announcements: seq<Announcement>,
                          recent: Result<seq<User>, DbError>)
    requires IsAdmin(caller, s)
    requires IsScanOf(users, s.users) && IsScanOf(courses, s.courses)
    requires IsScanOf(departments, s.departments) && IsScanOf(announcements, s.announcements)
    ensures var st := Load(Counted(caller, s, users, courses, departments, announcements), recent).stats;
            && st.users == |s.users| && st.courses == |s.courses|
            && st.departments == |s.departments| && st.announcements == |s.announcements|
  {
    AdminSeesAllUsers(caller, s, users);
  }

  /** `.order("created_at", { ascending: false }).limit(5)` on users. */
  function RecentUsers(users: seq<User>): (r: seq<User>)
    ensures |r| == if |users| < 5 then |users| else 5
    ensures SortedBy(r, NewestFirst(UserCreated))
    ensures multiset(r) <= multiset(users)
    ensures forall u, v :: u in users && u !in r && v in r ==> NewestFirst(UserCreated)(v, u)
  {
    NewestFirstIsTotalPreorder(UserCreated);
    Top(users, NewestFirst(UserCreated), 5)
  }

  /** No user left out of the recent list was created after one listed in it. */
  lemma RecentUsersAreNewest(users: seq<User>, u: User, v: User)
    requires u in users && u !in RecentUsers(users) && v in RecentUsers(users)
    ensures v.createdAt >= u.createdAt
  {
    assert NewestFirst(UserCreated)(v, u);
    assert UserCreated(v) >= UserCreated(u);
  }
}
