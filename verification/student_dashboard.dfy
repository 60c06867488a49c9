/** The student dashboard: the student's own active enrollments, each joined
    with its course, and the two figures computed from them. */
module StudentDashboard {
  import opened Wrappers
  import opened Schema
  import opened Store
  import opened Policy
  import opened Queries
  import opened Seqs
  import opened Order
  import opened Decimal

  /** An enrollment with its embedded `courses:course_id (...)`; the course
      is missing when no course row matches. */
  datatype Listed = Listed(enrollment: Enrollment, course: Option<Course>)

  /** `.eq("student_id", userId).eq("status", "active")`. */
  function OwnActive(userId: UserId): (keep: Enrollment -> bool)
    ensures forall e :: keep(e) <==> e.studentId == userId && e.status == Some(Active)
  {
    (e: Enrollment) => e.studentId == userId && e.status == Some(Active)
  }

  /** The course joined to an enrollment; every course row is readable. */
  function CourseOf(s: Store, e: Enrollment): (r: Option<Course>)
    ensures r.Some? <==> e.courseId in s.courses
    ensures r.Some? ==> r.value == s.courses[e.courseId]
  {
    if e.courseId in s.courses then Some(s.courses[e.courseId]) else None
  }

  function Enrollments(listing: seq<Listed>): (r: seq<Enrollment>)
    ensures |r| == |listing|
    ensures forall i :: 0 <= i < |r| ==> r[i] == listing[i].enrollment
  {
    seq(|listing|, i requires 0 <= i < |listing| => listing[i].enrollment)
  }

  /** Each enrollment with its course, in the same order. */
  function JoinCourses(s: Store, own: seq<Enrollment>): (r: seq<Listed>)
    ensures Enrollments(r) == own
    ensures forall i :: 0 <= i < |r| ==> r[i].course == CourseOf(s, own[i])
  {
    seq(|own|, i requires 0 <= i < |own| => Listed(own[i], CourseOf(s, own[i])))
  }

  /** `fetchData` for the signed-in student `userId`: `rows` is the
      enrollments table as the caller's row-level security lets it be read
      (a failed SELECT leaves the list empty). */
  function Load(userId: UserId, s: Store, rows: Result<seq<Enrollment>, DbError>): (r: seq<Listed>)
    ensures rows.Err? ==> r == []
    ensures rows.Ok? ==>
              && SortedBy(Enrollments(r), NewestFirst(EnrollmentDate))
              && multiset(Enrollments(r)) ==
                   multiset(Filter(VisibleEnrollments(Some(userId), s, rows.value), OwnActive(userId)))
    ensures forall i :: 0 <= i < |r| ==>
              r[i].enrollment.studentId == userId && r[i].enrollment.status == Some(Active)
              && r[i].course == CourseOf(s, r[i].enrollment)
  {
    match rows
    case Err(_) => []
    case Ok(es) =>
      var mine := Filter(VisibleEnrollments(Some(userId), s, es), OwnActive(userId));
      var own := EnrollmentsNewestFirst(mine);
      assert forall i :: 0 <= i < |own| ==> own[i] in multiset(mine);
      JoinCourses(s, own)
  }

  /** Row-level security hides none of a student's own enrollments, so the
      list holds every active enrollment of theirs in the table. */
  lemma OwnEnrollmentsAllVisible(userId: UserId, s: Store, rows: seq<Enrollment>)
    ensures Filter(VisibleEnrollments(Some(userId), s, rows), OwnActive(userId)) == Filter(rows, OwnActive(userId))
  {
    FilterImplied(rows, EnrollmentVisible(Some(userId), s), OwnActive(userId));
  }

  /** When the SELECT returns the table's rows, the dashboard lists exactly
      the student's active enrollments in the store. */
  lemma ListsOwnActiveRows(userId: UserId, s: Store, rows: seq<Enrollment>)
    requires IsScanOf(rows, s.enrollments)
    ensures var listed := Enrollments(Load(userId, s, Ok(rows)));
            && (forall k :: (k in s.enrollments && s.enrollments[k].studentId == userId
                             && s.enrollments[k].status == Some(Active)) ==> s.enrollments[k] in listed)
            && (forall e :: e in listed ==> e in s.enrollments.Values && e.studentId == userId)
  {
    var listed := Enrollments(Load(userId, s, Ok(rows)));
    OwnEnrollmentsAllVisible(userId, s, rows);
    forall e | e in rows && OwnActive(userId)(e)
      ensures e in listed
    {
      assert e in Filter(rows, OwnActive(userId));
      assert e in multiset(listed);
    }
    forall e | e in listed
      ensures e in rows
    {
      assert e in multiset(listed);
      assert e in Filter(rows, OwnActive(userId));
    }
  }

  /** "Active Courses": the number of listed enrollments. */
  function ActiveCourses(listing: seq<Listed>): (r: nat)
    ensures r == |Enrollments(listing)|
  {
    |listing|
  }

  /** `courses?.credits || 0`: a missing course counts as no credits. */
  function CreditsOf(l: Listed): int {
    if l.course.Some? then l.course.value.credits else 0
  }

  /** "Total Credits": the credits summed over the listing. */
  function TotalCredits(listing: seq<Listed>): (r: int)
    ensures listing == [] ==> r == 0
  {
    SumOf(listing, CreditsOf)
  }

  /** With no negative credits in the catalogue the total is not negative. */
  lemma TotalCreditsNonNegative(listing: seq<Listed>)
    requires forall i :: 0 <= i < |listing| ==> CreditsOf(listing[i]) >= 0
    ensures TotalCredits(listing) >= 0
  {
    SumOfNonNegative(listing, CreditsOf);
  }

  /** The total does not depend on the order the enrollments are listed in. */
  lemma TotalCreditsIgnoresOrder(a: seq<Listed>, b: seq<Listed>)
    requires multiset(a) == multiset(b)
    ensures TotalCredits(a) == TotalCredits(b)
  {
    SumOfPermutation(a, b, CreditsOf);
  }

  /** Adding one enrollment adds its course's credits (none for a missing course). */
  lemma TotalCreditsOfOneMore(listing: seq<Listed>, l: Listed)
    ensures TotalCredits(listing + [l]) == TotalCredits(listing) + CreditsOf(l)
  {
    SumOfAppend(listing, [l], CreditsOf);
  }

  /** `{credits} credit{credits !== 1 ? "s" : ""}` on an enrollment's card. */
  function CreditsLabel(credits: int): (r: string)
    ensures |r| >= 8
    ensures r[|r| - 1] == 's' <==> credits != 1
    ensures credits >= 0 ==> ParseNat(r) == Some(credits)
    ensures credits < 0 ==> r[0] == '-' && ParseNat(r[1..]) == Some(-credits)
  {
    var word := if credits != 1 then "credits" else "credit";
    var magnitude: nat := if credits >= 0 then credits else -credits;
    var digits := NatToString(magnitude);
    var prefix := if credits >= 0 then digits else "-" + digits;
    ParseNatLabel(magnitude, " " + word);
    LastOfLabel(prefix, word);
    assert prefix + " " + word == prefix + (" " + word);
    assert credits < 0 ==> (prefix + (" " + word))[1..] == digits + (" " + word);
    prefix + " " + word
  }

  /** A label `prefix + " " + word` ends with the word's last letter. */
  lemma LastOfLabel(prefix: string, word: string)
    requires word != []
    ensures var r := prefix + " " + word; |r| > |word| && r[|r| - 1] == word[|word| - 1]
  {
  }
}
