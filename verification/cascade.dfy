/** DELETE with the DDL's referential actions: enrollments.student_id,
    enrollments.course_id, courses.department_id and
    announcements.department_id are ON DELETE CASCADE; announcements.author_id
    is ON DELETE SET NULL. */
module Cascade {
  import opened Wrappers
  import opened Schema
  import opened Store

  /** The announcement with its author reference cleared if it pointed at `u`. */
  function DetachAuthor(a: Announcement, u: UserId): (r: Announcement)
    ensures r.authorId != Some(u)
    ensures a.authorId != Some(u) ==> r == a
    ensures r == a.(authorId := r.authorId)
  {
    if a.authorId == Some(u) then a.(authorId := None) else a
  }

  /** Deleting users row `u`: its enrollments go, its announcements stay with
      author_id set to NULL, and nothing else changes. */
  function DeleteUser(s: Store, u: UserId): (r: Store)
    ensures u !in r.users && r.users.Keys == s.users.Keys - {u}
    ensures forall k :: k in r.users ==> r.users[k] == s.users[k]
    ensures forall k :: k in r.enrollments <==> k in s.enrollments && s.enrollments[k].studentId != u
    ensures forall k :: k in r.enrollments ==> r.enrollments[k] == s.enrollments[k]
    ensures r.announcements.Keys == s.announcements.Keys
    ensures forall k :: k in r.announcements ==> r.announcements[k].authorId != Some(u)
    ensures forall k :: k in r.announcements ==>
              r.announcements[k] == s.announcements[k].(authorId := r.announcements[k].authorId)
    ensures forall k :: k in r.announcements && s.announcements[k].authorId != Some(u) ==>
              r.announcements[k] == s.announcements[k]
    ensures r.departments == s.departments && r.courses == s.courses && r.serials == s.serials
  {
    s.(users := s.users - {u},
       enrollments := map k | k in s.enrollments && s.enrollments[k].studentId != u :: s.enrollments[k],
       announcements := map k | k in s.announcements :: DetachAuthor(s.announcements[k], u))
  }

  /** The course `k` of `s` belongs to department `d` (and so goes when `d` goes). */
  predicate CourseInDepartment(s: Store, k: nat, d: nat) {
    k in s.courses && s.courses[k].departmentId == d
  }

  /** Deleting department `d`: its courses go, then those courses'
      enrollments, and every announcement addressed to `d`. */
  function DeleteDepartment(s: Store, d: nat): (r: Store)
    ensures d !in r.departments && r.departments.Keys == s.departments.Keys - {d}
    ensures forall k :: k in r.departments ==> r.departments[k] == s.departments[k]
    ensures forall k :: k in r.courses <==> k in s.courses && s.courses[k].departmentId != d
    ensures forall k :: k in r.enrollments <==> k in s.enrollments && !CourseInDepartment(s, s.enrollments[k].courseId, d)
    ensures forall k :: k in r.announcements <==> k in s.announcements && s.announcements[k].departmentId != Some(d)
    ensures forall k :: k in r.courses ==> r.courses[k] == s.courses[k]
    ensures forall k :: k in r.enrollments ==> r.enrollments[k] == s.enrollments[k]
    ensures forall k :: k in r.announcements ==> r.announcements[k] == s.announcements[k]
    ensures r.users == s.users && r.serials == s.serials
  {
    s.(departments := s.departments - {d},
       courses := map k | k in s.courses && s.courses[k].departmentId != d :: s.courses[k],
       enrollments := map k | k in s.enrollments && !CourseInDepartment(s, s.enrollments[k].courseId, d)
                              :: s.enrollments[k],
       announcements := map k | k in s.announcements && s.announcements[k].departmentId != Some(d)
                                :: s.announcements[k])
  }

  /** Deleting course `c`: its enrollments go with it. */
  function DeleteCourse(s: Store, c: nat): (r: Store)
    ensures c !in r.courses && r.courses.Keys == s.courses.Keys - {c}
    ensures forall k :: k in r.courses ==> r.courses[k] == s.courses[k]
    ensures forall k :: k in r.enrollments <==> k in s.enrollments && s.enrollments[k].courseId != c
    ensures forall k :: k in r.enrollments ==> r.enrollments[k] == s.enrollments[k]
    ensures r.users == s.users && r.departments == s.departments && r.announcements == s.announcements
    ensures r.serials == s.serials
  {
    s.(courses := s.courses - {c},
       enrollments := map k | k in s.enrollments && s.enrollments[k].courseId != c :: s.enrollments[k])
  }

  /** After deleting a user no row refers to them and the store is still
      consistent: the cascade and the SET NULL leave no orphan. */
  lemma DeleteUserWellFormed(s: Store, u: UserId)
    requires WellFormed(s)
    ensures WellFormed(DeleteUser(s, u))
  {
    DeleteUserKeysAndUniques(s, u);
    DeleteUserNoOrphans(s, u);
  }

  lemma DeleteUserKeysAndUniques(s: Store, u: UserId)
    requires WellFormed(s)
    ensures KeysAreIds(DeleteUser(s, u)) && SerialsAhead(DeleteUser(s, u)) && UniqueKeys(DeleteUser(s, u))
  {
    var t := DeleteUser(s, u);
    forall k | k in t.announcements
      ensures t.announcements[k].id == k
    {
      assert t.announcements[k].id == s.announcements[k].id;
    }
    forall a, b | a in t.users && b in t.users && a != b
      ensures t.users[a].email != t.users[b].email
    {
      assert t.users[a] == s.users[a] && t.users[b] == s.users[b];
    }
    forall a, b | a in t.enrollments && b in t.enrollments && a != b
      ensures t.enrollments[a].studentId != t.enrollments[b].studentId
              || t.enrollments[a].courseId != t.enrollments[b].courseId
    {
      assert t.enrollments[a] == s.enrollments[a] && t.enrollments[b] == s.enrollments[b];
    }
  }

  lemma DeleteUserNoOrphans(s: Store, u: UserId)
    requires WellFormed(s)
    ensures NoOrphans(DeleteUser(s, u))
  {
    var t := DeleteUser(s, u);
    forall k | k in t.enrollments
      ensures t.enrollments[k].courseId in t.courses && t.enrollments[k].studentId in t.users
    {
      assert t.enrollments[k] == s.enrollments[k];
    }
    forall k | k in t.announcements && t.announcements[k].authorId.Some?
      ensures t.announcements[k].authorId.value in t.users
    {
      assert s.announcements[k].authorId == t.announcements[k].authorId;
    }
    forall k | k in t.announcements && t.announcements[k].departmentId.Some?
      ensures t.announcements[k].departmentId.value in t.departments
    {
      assert t.announcements[k].departmentId == s.announcements[k].departmentId;
    }
  }

  /** After deleting a department no course, enrollment or announcement refers
      to a missing department or course: there are no orphans. */
  lemma DeleteDepartmentWellFormed(s: Store, d: nat)
    requires WellFormed(s)
    ensures WellFormed(DeleteDepartment(s, d))
  {
    var t := DeleteDepartment(s, d);
    assert KeysAreIds(t);
    assert SerialsAhead(t);
    assert UniqueKeys(t) by {
      forall a, b | a in t.enrollments && b in t.enrollments && a != b
        ensures t.enrollments[a].studentId != t.enrollments[b].studentId
                || t.enrollments[a].courseId != t.enrollments[b].courseId
      {
        assert t.enrollments[a] == s.enrollments[a] && t.enrollments[b] == s.enrollments[b];
      }
    }
    assert NoOrphans(t) by {
      forall k | k in t.enrollments
        ensures t.enrollments[k].courseId in t.courses
      {
        var c := s.enrollments[k].courseId;
        assert c in s.courses && !CourseInDepartment(s, c, d);
      }
    }
  }

  lemma DeleteCourseWellFormed(s: Store, c: nat)
    requires WellFormed(s)
    ensures WellFormed(DeleteCourse(s, c))
  {
    var t := DeleteCourse(s, c);
    assert KeysAreIds(t);
    assert SerialsAhead(t);
    assert UniqueKeys(t) by {
      forall a, b | a in t.courses && b in t.courses && a != b
        ensures t.courses[a].code != t.courses[b].code
      {
        assert t.courses[a] == s.courses[a] && t.courses[b] == s.courses[b];
      }
      forall a, b | a in t.enrollments && b in t.enrollments && a != b
        ensures t.enrollments[a].studentId != t.enrollments[b].studentId
                || t.enrollments[a].courseId != t.enrollments[b].courseId
      {
        assert t.enrollments[a] == s.enrollments[a] && t.enrollments[b] == s.enrollments[b];
      }
    }
    assert NoOrphans(t) by {
      forall k | k in t.enrollments
        ensures t.enrollments[k].courseId in t.courses && t.enrollments[k].studentId in t.users
      {
        assert t.enrollments[k] == s.enrollments[k];
      }
      forall k | k in t.courses
        ensures t.courses[k].departmentId in t.departments
      {
        assert t.courses[k] == s.courses[k];
      }
    }
  }

  /** In a consistent store, deleting a department removes exactly its courses
      and the enrollments in them: an enrollment survives iff its course does. */
  lemma DeleteDepartmentRemovesCourseEnrollments(s: Store, d: nat)
    requires WellFormed(s)
    ensures forall k :: k in s.enrollments ==>
              (k in DeleteDepartment(s, d).enrollments <==> s.enrollments[k].courseId in DeleteDepartment(s, d).courses)
  {
    var t := DeleteDepartment(s, d);
    forall k | k in s.enrollments
      ensures k in t.enrollments <==> s.enrollments[k].courseId in t.courses
    {
      assert s.enrollments[k].courseId in s.courses;
    }
  }
}
