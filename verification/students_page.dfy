/** The student directory page: profiles with the student role, newest
    first, and the search box. It reads a `profiles` table that the setup
    route never creates, so the SELECT's outcome is a parameter. */
module StudentsPage {
  import opened Wrappers
  import opened Schema
  import opened Store
  import opened Seqs
  import opened Order
  import opened Text
  import opened LibTypes

  function CreatedAt(p: UserProfile): Option<Time> { p.createdAt }

  /** `.eq("role", "student")`. */
  function IsStudent(p: UserProfile): bool { p.role == Some(Student) }

  /** `fetchStudents`: the student rows, `.order("created_at", { ascending: false })`;
      a failed SELECT leaves the list empty. */
  function Load(rows: Result<seq<UserProfile>, DbError>): (r: seq<UserProfile>)
    ensures rows.Err? ==> r == []
    ensures forall p :: p in r ==> p.role == Some(Student)
    ensures rows.Ok? ==> SortedBy(r, NullsFirstNewest(CreatedAt))
    ensures rows.Ok? ==> multiset(r) == multiset(Filter(rows.value, IsStudent))
  {
    match rows
    case Err(_) => []
    case Ok(ps) =>
      NullsFirstNewestIsTotalPreorder(CreatedAt);
      var students := Filter(ps, IsStudent);
      var r := SortBy(students, NullsFirstNewest(CreatedAt));
      assert forall p :: p in r ==> p in multiset(students);
      r
  }

  /** The query occurs, ignoring case, in the full name or the email; an
      absent field never matches, not even the empty query. */
  predicate MatchesSearch(p: UserProfile, query: string) {
    (p.fullName.Some? && Matches(p.fullName.value, query)) || (p.email.Some? && Matches(p.email.value, query))
  }

  /** `filteredStudents`. */
  function FilteredStudents(students: seq<UserProfile>, query: string): (r: seq<UserProfile>)
    ensures forall p :: p in r <==> p in students && MatchesSearch(p, query)
  {
    Filter(students, (p: UserProfile) => MatchesSearch(p, query))
  }

  lemma FilteredStudentsKeepsOrder(students: seq<UserProfile>, query: string)
    ensures IsSubsequence(FilteredStudents(students, query), students)
  {
    FilterIsSubsequence(students, (p: UserProfile) => MatchesSearch(p, query));
  }

  /** An empty query lists exactly the students with a name or an email. */
  lemma EmptySearchKeepsNamed(students: seq<UserProfile>)
    ensures FilteredStudents(students, "") == Filter(students, (p: UserProfile) => p.fullName.Some? || p.email.Some?)
  {
    forall k | 0 <= k < |students|
      ensures MatchesSearch(students[k], "") == (students[k].fullName.Some? || students[k].email.Some?)
    {
      if students[k].fullName.Some? {
        EmptyQueryMatches(students[k].fullName.value);
      }
      if students[k].email.Some? {
        EmptyQueryMatches(students[k].email.value);
      }
    }
    FilterCongruent(students, (p: UserProfile) => MatchesSearch(p, ""),
                    (p: UserProfile) => p.fullName.Some? || p.email.Some?);
  }

  /** The Student ID cell: `student_id || "N/A"`. */
  function StudentIdLabel(p: UserProfile): (r: string)
    ensures r != ""
    ensures p.studentId.None? || p.studentId == Some("") ==> r == "N/A"
    ensures p.studentId.Some? && p.studentId.value != "" ==> r == p.studentId.value
  {
    if p.studentId.Some? && p.studentId.value != "" then p.studentId.value else "N/A"
  }
}
