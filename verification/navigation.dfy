/** The dashboard's navigation: the sidebar (desktop) and the header's
    mobile menu. Both list the same destinations, with the Users and
    Departments links for admins and faculty. */
module Navigation {
  import opened Wrappers
  import opened Schema
  import opened Store
  import opened UsersPage
  import opened DepartmentsPage

  /** A rendered link; `current` is whether it is drawn highlighted. */
  datatype Link = Link(name: string, href: string, current: bool)

  /** The links every signed-in user gets, as (name, href). */
  const BaseLinks: seq<(string, string)> := [
    ("Dashboard", "/dashboard"),
    ("Courses", "/dashboard/courses"),
    ("Schedule", "/dashboard/schedule"),
    ("Announcements", "/dashboard/announcements")
  ]

  /** The "Administration" links. */
  const AdminLinks: seq<(string, string)> := [
    ("Users", "/dashboard/users"),
    ("Departments", "/dashboard/departments")
  ]

  /** `isAdmin || isFaculty`: the loaded user's role is admin or faculty. */
  predicate SeesAdministration(user: Option<User>) {
    user.Some? && user.value.role in {Admin, Faculty}
  }

  /** The (name, href) pairs a user is offered, base links first. */
  function Destinations(user: Option<User>): (r: seq<(string, string)>)
    ensures |r| == if SeesAdministration(user) then 6 else 4
    ensures r[..|BaseLinks|] == BaseLinks
    ensures SeesAdministration(user) ==> r[|BaseLinks|..] == AdminLinks
    ensures forall i, j :: 0 <= i < j < |r| ==> r[i].1 != r[j].1
  {
    if SeesAdministration(user) then BaseLinks + AdminLinks else BaseLinks
  }

  function Hrefs(links: seq<Link>): (r: seq<string>)
    ensures |r| == |links|
    ensures forall i :: 0 <= i < |r| ==> r[i] == links[i].href
  {
    seq(|links|, i requires 0 <= i < |links| => links[i].href)
  }

  /** The sidebar: every destination, highlighted exactly when it is the current path. */
  function SidebarLinks(user: Option<User>, pathname: string): (r: seq<Link>)
    ensures |r| == |Destinations(user)|
    ensures forall i :: 0 <= i < |r| ==> r[i].name == Destinations(user)[i].0 && r[i].href == Destinations(user)[i].1
    ensures forall i :: 0 <= i < |r| ==> (r[i].current <==> r[i].href == pathname)
    ensures forall i, j :: 0 <= i < |r| && 0 <= j < |r| && r[i].current && r[j].current ==> i == j
  {
    var ds := Destinations(user);
    seq(|ds|, i requires 0 <= i < |ds| => Link(ds[i].0, ds[i].1, ds[i].1 == pathname))
  }

  /** The header's mobile menu: nothing while closed; when open, the same
      destinations with Dashboard always highlighted, whatever the path. */
  function MobileLinks(user: Option<User>, open: bool): (r: seq<Link>)
    ensures !open ==> r == []
    ensures open ==> |r| == |Destinations(user)|
    ensures open ==> forall i :: 0 <= i < |r| ==> r[i].name == Destinations(user)[i].0 && r[i].href == Destinations(user)[i].1
    ensures open ==> forall i :: 0 <= i < |r| ==> (r[i].current <==> r[i].href == "/dashboard")
  {
    if !open then []
    else
      var ds := Destinations(user);
      seq(|ds|, i requires 0 <= i < |ds| => Link(ds[i].0, ds[i].1, i == 0))
  }

  /** The menu button flips the menu; pressing it twice restores it. */
  function Toggle(open: bool): (r: bool)
    ensures r != open
  {
    !open
  }

  /** The open mobile menu offers exactly the sidebar's destinations. */
  lemma MobileMatchesSidebar(user: Option<User>, pathname: string)
    ensures Hrefs(MobileLinks(user, true)) == Hrefs(SidebarLinks(user, pathname))
  {
  }

  /** Away from the dashboard's home, the two menus disagree on the current
      page: the sidebar highlights the path's own link (or none), the mobile
      menu highlights Dashboard. */
  lemma MobileHighlightIgnoresPath(user: Option<User>, pathname: string)
    requires pathname != "/dashboard"
    ensures MobileLinks(user, true)[0].current && !SidebarLinks(user, pathname)[0].current
  {
  }

  /** Faculty are offered the Users and Departments links, but both pages
      admit only admins, so following either shows "Access Denied". */
  lemma FacultyLinksLeadToAccessDenied(user: User, departmentRows: Result<seq<Department>, DbError>,
                                       userRows: Result<seq<User>, DbError>)
    requires user.role == Faculty
    ensures exists i :: 0 <= i < |SidebarLinks(Some(user), "")| && SidebarLinks(Some(user), "")[i].href == "/dashboard/users"
    ensures exists i :: 0 <= i < |SidebarLinks(Some(user), "")| && SidebarLinks(Some(user), "")[i].href == "/dashboard/departments"
    ensures UsersPage.Load(Some(user.role), departmentRows, userRows) == UsersPage.AccessDenied
    ensures DepartmentsPage.Load(Some(user.role), departmentRows) == DepartmentsPage.AccessDenied
  {
    var links := SidebarLinks(Some(user), "");
    assert links[4].href == "/dashboard/users";
    assert links[5].href == "/dashboard/departments";
  }

  /** Students are offered neither administration link. */
  lemma StudentsSeeNoAdministration(user: User, pathname: string)
    requires user.role == Student
    ensures forall i :: 0 <= i < |SidebarLinks(Some(user), pathname)| ==>
              SidebarLinks(Some(user), pathname)[i].href !in {"/dashboard/users", "/dashboard/departments"}
  {
  }
}
