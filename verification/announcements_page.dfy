/** The announcements page: the listing joined with each author's name and
    each department's name, the create dialog (admins and faculty), and the
    search box. The joins read the users and departments tables under the
    caller's own row-level security. */
module AnnouncementsPage {
  import opened Wrappers
  import opened Schema
  import opened Store
  import opened Policy
  import opened Access
  import opened Queries
  import opened Seqs
  import opened Order
  import opened Text
  import opened Decimal

  // ---------------------------------------------------------------------------
  // The joined listing
  // ---------------------------------------------------------------------------

  /** One row of `select("*, users:author_id (full_name), departments:department_id (name)")`. */
  datatype Listed = Listed(announcement: Announcement, authorName: Option<string>, departmentName: Option<string>)

  /** `users:author_id (full_name)`: the author's name when the author's users
      row exists and the caller may read it. */
  function AuthorName(caller: Caller, s: Store, a: Announcement): (r: Option<string>)
    ensures r.Some? <==> && a.authorId.Some? && a.authorId.value in s.users
                         && (caller == Some(s.users[a.authorId.value].id) || IsAdmin(caller, s))
                         && s.users[a.authorId.value].fullName.Some?
    ensures r.Some? ==> r == s.users[a.authorId.value].fullName
  {
    match a.authorId
    case None => None
    case Some(id) =>
      if id !in s.users then None
      else
        var u := s.users[id];
        UsersRules(caller, u, u, s);
        if Visible(caller, UserRow(u), s) then u.fullName else None
  }

  /** `departments:department_id (name)`: every department is readable. */
  function DepartmentName(caller: Caller, s: Store, a: Announcement): (r: Option<string>)
    ensures r.Some? <==> a.departmentId.Some? && a.departmentId.value in s.departments
    ensures r.Some? ==> r.value == s.departments[a.departmentId.value].name
  {
    match a.departmentId
    case None => None
    case Some(id) =>
      if id !in s.departments then None
      else
        var d := s.departments[id];
        CatalogRules(caller, DepartmentRow(d), DepartmentRow(d), s);
        if Visible(caller, DepartmentRow(d), s) then Some(d.name) else None
  }

  /** The announcements of a listing, in listing order. */
  function Announcements(listing: seq<Listed>): (r: seq<Announcement>)
    ensures |r| == |listing|
    ensures forall i :: 0 <= i < |r| ==> r[i] == listing[i].announcement
  {
    seq(|listing|, i requires 0 <= i < |listing| => listing[i].announcement)
  }

  /** Joins each announcement with its author's and department's names, keeping the order. */
  function JoinAll(caller: Caller, s: Store, rows: seq<Announcement>): (r: seq<Listed>)
    ensures Announcements(r) == rows
    ensures forall i :: 0 <= i < |r| ==>
              r[i].authorName == AuthorName(caller, s, rows[i]) && r[i].departmentName == DepartmentName(caller, s, rows[i])
  {
    seq(|rows|, i requires 0 <= i < |rows| => Listed(rows[i], AuthorName(caller, s, rows[i]), DepartmentName(caller, s, rows[i])))
  }

  /** A non-admin sees an author's name only on their own announcements; on
      everyone else's the page prints "Unknown". */
  lemma OthersNamesHidden(caller: Caller, s: Store, a: Announcement)
    requires KeysAreIds(s)
    requires !IsAdmin(caller, s)
    requires a.authorId != caller
    ensures AuthorName(caller, s, a).None?
    ensures AuthorLabel(Listed(a, AuthorName(caller, s, a), DepartmentName(caller, s, a))) == "Unknown"
  {
  }

  /** An admin sees the name of every author that still exists and has one. */
  lemma AdminSeesAuthorNames(caller: Caller, s: Store, a: Announcement)
    requires IsAdmin(caller, s)
    requires a.authorId.Some? && a.authorId.value in s.users && s.users[a.authorId.value].fullName.Some?
    ensures AuthorName(caller, s, a) == s.users[a.authorId.value].fullName
  {
  }

  /** `announcement.users?.full_name || "Unknown"`. */
  function AuthorLabel(l: Listed): (r: string)
    ensures r != ""
    ensures l.authorName.Some? && l.authorName.value != "" ==> r == l.authorName.value
    ensures l.authorName.None? ==> r == "Unknown"
  {
    if l.authorName.Some? && l.authorName.value != "" then l.authorName.value else "Unknown"
  }

  // ---------------------------------------------------------------------------
  // Loading
  // ---------------------------------------------------------------------------

  datatype Page = Page(user: Option<User>, departments: seq<Department>, listing: seq<Listed>)

  /** `fetchData`: the session user's row, then the departments, then the
      joined announcements, newest first; the first failure stops the rest. */
  function Load(caller: Caller, s: Store, departmentRows: Result<seq<Department>, DbError>,
                announcementRows: Result<seq<Announcement>, DbError>): (r: Page)
    requires KeysAreIds(s)
    ensures r.user.Some? <==> caller.Some? && caller.value in s.users
    ensures r.user.Some? ==> r.user.value == s.users[caller.value]
    ensures r.user.None? || departmentRows.Err? ==> r.departments == [] && r.listing == []
    ensures r.user.Some? && departmentRows.Ok? ==>
              && SortedBy(r.departments, ByText(Queries.DepartmentName))
              && multiset(r.departments) == multiset(departmentRows.value)
    ensures announcementRows.Err? ==> r.listing == []
    ensures r.user.Some? && departmentRows.Ok? && announcementRows.Ok? ==>
              && SortedBy(Announcements(r.listing), NewestFirst(AnnouncementCreated))
              && multiset(Announcements(r.listing)) == multiset(announcementRows.value)
  {
    match SessionUser(caller, s)
    case None => Page(None, [], [])
    case Some(u) =>
      match departmentRows
      case Err(_) => Page(Some(u), [], [])
      case Ok(ds) =>
        match announcementRows
        case Err(_) => Page(Some(u), DepartmentsByName(ds), [])
        case Ok(rows) => Page(Some(u), DepartmentsByName(ds), JoinAll(caller, s, AnnouncementsNewestFirst(rows)))
  }

  /** Every announcement passes the SELECT policy, so when the SELECT returns
      the table's rows the page lists every announcement of the store and
      nothing else. */
  lemma EveryAnnouncementListed(caller: Caller, s: Store, departmentRows: Result<seq<Department>, DbError>,
                                rows: seq<Announcement>)
    requires KeysAreIds(s)
    requires caller.Some? && caller.value in s.users && departmentRows.Ok?
    requires IsScanOf(rows, s.announcements)
    ensures forall k :: k in s.announcements ==> Visible(caller, AnnouncementRow(s.announcements[k]), s)
    ensures var listed := Announcements(Load(caller, s, departmentRows, Ok(rows)).listing);
            && (forall k :: k in s.announcements ==> s.announcements[k] in listed)
            && (forall a :: a in listed ==> a in s.announcements.Values)
  {
    forall k | k in s.announcements
      ensures Visible(caller, AnnouncementRow(s.announcements[k]), s)
    {
      AnnouncementRules(caller, s.announcements[k], s.announcements[k], s);
    }
    var listed := Announcements(Load(caller, s, departmentRows, Ok(rows)).listing);
    forall a | a in listed || a in rows
      ensures a in listed <==> a in rows
    {
      assert a in multiset(listed) <==> a in multiset(rows);
    }
  }

  /** `canCreateAnnouncement`: the loaded user is an admin or faculty member. */
  predicate CanCreate(user: Option<User>) {
    user.Some? && user.value.role in {Admin, Faculty}
  }

  /** The page offers the create dialog to exactly the callers the INSERT
      policy admits. */
  lemma CanCreateMatchesInsertPolicy(caller: Caller, s: Store, a: Announcement)
    requires KeysAreIds(s)
    requires a.authorId == caller
    ensures CanCreate(SessionUser(caller, s)) <==> Allowed(caller, InsertRow(AnnouncementRow(a)), s)
  {
    AnnouncementInsertRule(caller, a, s);
  }

  // ---------------------------------------------------------------------------
  // The department picker
  // ---------------------------------------------------------------------------

  /** The picker's value for the form's department: `department_id?.toString() || ""`. */
  function SelectValue(departmentId: Option<nat>): (r: string)
    ensures r == "" <==> departmentId.None?
  {
    match departmentId
    case None => ""
    case Some(d) => NatToString(d)
  }

  /** `value ? Number.parseInt(value) : null`; text that is not a number
      gives `NaN`, which the JSON body sends as null. */
  function DepartmentChoice(value: string): (r: Option<nat>)
    ensures value == "" ==> r.None?
    ensures r.Some? ==> value != "" && IsDigit(value[0])
  {
    if value == "" then None else ParseNat(value)
  }

  /** Reading the picker back gives the department it shows. */
  lemma ChoiceRoundTrip(departmentId: Option<nat>)
    ensures DepartmentChoice(SelectValue(departmentId)) == departmentId
  {
    if departmentId.Some? {
      ParseNatToString(departmentId.value);
    }
  }

  /** Each department's item (`dept.id.toString()`) selects that department. */
  lemma DepartmentItemSelectsIt(d: Department)
    ensures DepartmentChoice(NatToString(d.id)) == Some(d.id)
  {
    ParseNatToString(d.id);
  }

  // ---------------------------------------------------------------------------
  // Creating
  // ---------------------------------------------------------------------------

  datatype NewAnnouncementForm = NewAnnouncementForm(title: string, content: string, departmentId: Option<nat>)

  const BlankAnnouncement: NewAnnouncementForm := NewAnnouncementForm("", "", None)

  datatype Created = Created(store: Store, form: NewAnnouncementForm, dialogOpen: bool, listing: seq<Listed>)

  /** `handleCreateAnnouncement`: INSERT with the session user as author, then
      reload the joined listing (`refreshed` is what that SELECT returns);
      only when both succeed is the form reset and the dialog closed. No
      field is checked before the INSERT. */
  function CreateAnnouncement(s: Store, caller: Caller, f: NewAnnouncementForm, dialogOpen: bool,
                              listing: seq<Listed>, refreshed: Result<seq<Announcement>, DbError>, now: Time)
    : (r: Created)
    requires SerialsAhead(s)
    ensures caller.None? || !HasRole(caller, s, {Admin, Faculty}) ==> r == Created(s, f, dialogOpen, listing)
    ensures (caller.Some? && HasRole(caller, s, {Admin, Faculty}) && f.departmentId.Some?
             && f.departmentId.value !in s.departments) ==> r == Created(s, f, dialogOpen, listing)
    ensures r.store != s ==>
              var id := r.store.serials.announcement;
              && id !in s.announcements
              && r.store.announcements.Keys == s.announcements.Keys + {id}
              && r.store.announcements[id] == Announcement(id, f.title, f.content, caller, f.departmentId, now, now)
              && caller.Some? && HasRole(caller, s, {Admin, Faculty})
    ensures (caller.Some? && HasRole(caller, s, {Admin, Faculty})
             && (f.departmentId.Some? ==> f.departmentId.value in s.departments)) ==> r.store != s
    ensures !r.dialogOpen && dialogOpen ==> r.store != s && refreshed.Ok? && r.form == BlankAnnouncement
    ensures r.store != s && refreshed.Ok? ==>
              && r.form == BlankAnnouncement && !r.dialogOpen
              && SortedBy(Announcements(r.listing), NewestFirst(AnnouncementCreated))
              && multiset(Announcements(r.listing)) == multiset(refreshed.value)
    ensures r.store != s && refreshed.Err? ==> r.form == f && r.dialogOpen == dialogOpen && r.listing == listing
  {
    match caller
    case None => Created(s, f, dialogOpen, listing)
    case Some(author) =>
      match InsertAnnouncementAs(s, author, f.title, f.content, f.departmentId, now)
      case Err(_) => Created(s, f, dialogOpen, listing)
      case Ok(t) =>
        assert t.serials.announcement !in s.announcements;
        match refreshed
        case Err(_) => Created(t, f, dialogOpen, listing)
        case Ok(rows) => Created(t, BlankAnnouncement, false, JoinAll(caller, t, AnnouncementsNewestFirst(rows)))
  }

  /** When the reload returns the table's rows after a successful INSERT,
      the new announcement is in the listing and the dialog is closed. */
  lemma NewAnnouncementListed(s: Store, caller: Caller, f: NewAnnouncementForm, listing: seq<Listed>,
                              rows: seq<Announcement>, now: Time)
    requires SerialsAhead(s)
    requires caller.Some? && HasRole(caller, s, {Admin, Faculty})
    requires f.departmentId.Some? ==> f.departmentId.value in s.departments
    requires IsScanOf(rows, CreateAnnouncement(s, caller, f, true, listing, Ok(rows), now).store.announcements)
    ensures var r := CreateAnnouncement(s, caller, f, true, listing, Ok(rows), now);
            && r.store.serials.announcement in r.store.announcements
            && r.store.announcements[r.store.serials.announcement] in Announcements(r.listing)
            && !r.dialogOpen
  {
    var r := CreateAnnouncement(s, caller, f, true, listing, Ok(rows), now);
    var a := r.store.announcements[r.store.serials.announcement];
    assert a in rows;
    assert a in multiset(Announcements(r.listing));
  }

  /** Nothing stops an empty announcement: an admin or faculty member who
      presses Publish on the blank form stores one with empty title and content. */
  lemma BlankFormIsPublished(s: Store, caller: Caller, listing: seq<Listed>,
                             refreshed: Result<seq<Announcement>, DbError>, now: Time)
    requires SerialsAhead(s)
    requires HasRole(caller, s, {Admin, Faculty})
    ensures var r := CreateAnnouncement(s, caller, BlankAnnouncement, true, listing, refreshed, now);
            && r.store != s
            && r.store.announcements[r.store.serials.announcement].title == ""
            && r.store.announcements[r.store.serials.announcement].content == ""
  {
  }

  // ---------------------------------------------------------------------------
  // Search
  // ---------------------------------------------------------------------------

  /** The query occurs, ignoring case, in the title, the content, the
      department's name or the author's name (a missing name as ""). */
  predicate MatchesSearch(l: Listed, query: string) {
    || Matches(l.announcement.title, query)
    || Matches(l.announcement.content, query)
    || Matches(l.departmentName.GetOr(""), query)
    || Matches(l.authorName.GetOr(""), query)
  }

  /** `filteredAnnouncements`. */
  function FilteredAnnouncements(listing: seq<Listed>, query: string): (r: seq<Listed>)
    ensures forall l :: l in r <==> l in listing && MatchesSearch(l, query)
  {
    Filter(listing, (l: Listed) => MatchesSearch(l, query))
  }

  lemma FilteredAnnouncementsKeepsOrder(listing: seq<Listed>, query: string)
    ensures IsSubsequence(FilteredAnnouncements(listing, query), listing)
  {
    FilterIsSubsequence(listing, (l: Listed) => MatchesSearch(l, query));
  }

  /** An empty query lists every announcement. */
  lemma EmptySearchKeepsAll(listing: seq<Listed>)
    ensures FilteredAnnouncements(listing, "") == listing
  {
    forall k | 0 <= k < |listing|
      ensures MatchesSearch(listing[k], "")
    {
      EmptyQueryMatches(listing[k].announcement.title);
    }
    FilterKeepsAll(listing, (l: Listed) => MatchesSearch(l, ""));
  }
}
