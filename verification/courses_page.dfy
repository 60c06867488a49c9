/** The course catalogue page: every course newest first and the search box.
    Rows are typed with the lib/types.ts course shape. */
module CoursesPage {
  import opened Wrappers
  import opened Schema
  import opened Store
  import opened Seqs
  import opened Order
  import opened Text
  import opened LibTypes

  function CreatedAt(c: CatalogCourse): Option<Time> { c.createdAt }

  /** `fetchCourses`: `.order("created_at", { ascending: false })`; a failed
      SELECT leaves the list empty. */
  function Load(rows: Result<seq<CatalogCourse>, DbError>): (r: seq<CatalogCourse>)
    ensures rows.Err? ==> r == []
    ensures rows.Ok? ==> SortedBy(r, NullsFirstNewest(CreatedAt)) && multiset(r) == multiset(rows.value)
  {
    match rows
    case Err(_) => []
    case Ok(cs) =>
      NullsFirstNewestIsTotalPreorder(CreatedAt);
      SortBy(cs, NullsFirstNewest(CreatedAt))
  }

  /** The courses table has no department column, so every row the page
      lists from it shows an empty Department cell. */
  lemma DepartmentCellAlwaysEmpty(rows: seq<Course>, c: CatalogCourse)
    requires c in Load(Ok(seq(|rows|, i requires 0 <= i < |rows| => FromCoursesRow(rows[i]))))
    ensures c.department.None?
  {
    var listed := seq(|rows|, i requires 0 <= i < |rows| => FromCoursesRow(rows[i]));
    assert c in multiset(listed);
  }

  /** The query occurs, ignoring case, in the title or the code. */
  predicate MatchesSearch(c: CatalogCourse, query: string) {
    Matches(c.title, query) || Matches(c.code, query)
  }

  /** `filteredCourses`. Title and code are required in this shape (and
      NOT NULL in the table), so the optional chaining never short-cuts. */
  function FilteredCourses(courses: seq<CatalogCourse>, query: string): (r: seq<CatalogCourse>)
    ensures forall c :: c in r <==> c in courses && MatchesSearch(c, query)
  {
    Filter(courses, (c: CatalogCourse) => MatchesSearch(c, query))
  }

  lemma FilteredCoursesKeepsOrder(courses: seq<CatalogCourse>, query: string)
    ensures IsSubsequence(FilteredCourses(courses, query), courses)
  {
    FilterIsSubsequence(courses, (c: CatalogCourse) => MatchesSearch(c, query));
  }

  /** An empty query lists every course. */
  lemma EmptySearchKeepsAll(courses: seq<CatalogCourse>)
    ensures FilteredCourses(courses, "") == courses
  {
    forall k | 0 <= k < |courses|
      ensures MatchesSearch(courses[k], "")
    {
      EmptyQueryMatches(courses[k].title);
    }
    FilterKeepsAll(courses, (c: CatalogCourse) => MatchesSearch(c, ""));
  }

  const NoMatchMessage: string := "No courses found matching your search"
  const NoCoursesMessage: string := "No courses found. Add one to get started."

  /** The text of an empty table: the search variant exactly when a query is typed. */
  function EmptyMessage(query: string): (r: string)
    ensures r == NoMatchMessage <==> query != ""
    ensures r == NoCoursesMessage <==> query == ""
  {
    if query != "" then NoMatchMessage else NoCoursesMessage
  }
}
