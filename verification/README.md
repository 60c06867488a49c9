# College management: a Dafny model of the data layer and dashboard pages

This project models the core of a small college-management web app. The app is written in TypeScript on Next.js, and its data sits in Supabase (PostgreSQL with row-level security). The model covers:

- **The schema** the setup route creates: five tables, their constraints, the `ON DELETE` actions and the sample departments.
- **The row-level security policies**, which are data here: a `Policy` record per `CREATE POLICY`, read by PostgreSQL's rules.
  - Permissive policies are OR-ed together.
  - A table with security enabled and no matching policy denies.
  - An UPDATE or DELETE skips the rows its USING expressions hide, and reports no error.
  - An INSERT whose new row no WITH CHECK accepts raises an error.
  - Referential actions bypass the policies.
- **The pages and dashboard components** that read and write through those policies:
  - the users, departments, profile, announcements, courses and students pages;
  - the admin, faculty and student dashboards;
  - the sidebar and the header.

The database is an immutable `Store`: a map per table plus the SERIAL counters. Every insert and update is a pure function returning `Result<Store, DbError>`, and reports errors in PostgreSQL's order:

1. row security;
2. NOT NULL and CHECK;
3. UNIQUE;
4. FOREIGN KEY.

A page handler is a function from the store, the session user (`Caller`) and the form state to the new store and the new page state. Each call into Supabase is one of two things. Either it is one of the functions above, or, when it goes outside the database (the auth API), the model takes its outcome as a parameter.

Four points of the data rules are settled by the code alone, and the model follows it:

- **`enrollments.status`**: it has no NOT NULL, so an explicit NULL is storable. `Enrollment.status` is therefore `Option<Status>`, although types/index.ts declares it non-null.
- **`courses.credits`**: it is any 32-bit INTEGER, not a positive one.
- **Enrollment writes**: only admins may insert or update enrollments, through the "manage all" policy. Neither student self-enrolment nor faculty writes has a policy.
- **Status transitions**: no transition rule is enforced anywhere.

Consequences of the code that the model makes explicit, each proved:

- **Adding a user always fails at the users insert.** The users table has no INSERT policy (`Access.InsertUserAs`, `UsersPage.AddUser`). By then the auth account has already been created, so it is left without a users row.
- **A non-admin's profile save changes nothing.** The users table has only an admin UPDATE policy, so the save silently updates nothing. The page still reports success and shows the edited values (`ProfilePage.NonAdminSaveIsSilentNoOp`).
- **Faculty get links to pages that deny them.** Their sidebar links to the Users and Departments pages, and both render "Access Denied" to non-admins (`Navigation.FacultyLinksLeadToAccessDenied`).
- **Non-admins see "Unknown" as most authors.** The announcements listing joins authors' names through the users table's policies. A non-admin sees "Unknown" for every author but themselves (`AnnouncementsPage.OthersNamesHidden`).
- **The mobile menu always highlights "Dashboard"**, whatever the path (`Navigation.MobileHighlightIgnoresPath`).
- **The faculty "Students" figure counts enrollments, not students.** It counts active enrollment rows in the department's courses, not distinct students (`FacultyDashboard.StudentsFigureCountsAllActiveRows`).
- **The courses page's Department cell is always empty.** The courses rows carry no `department` column (`CoursesPage.DepartmentCellAlwaysEmpty`).
- **The students page reads a `profiles` table** that the setup route never creates. Its rows are a parameter of the model.
- **Announcements need no title or content.** Neither is validated, so a blank form is published (`AnnouncementsPage.BlankFormIsPublished`).
- **A new department's empty description is stored as `""`, not NULL** (`DepartmentsPage.AddDepartment`).

Text is compared by character code, as under PostgreSQL's "C" collation. Case mapping is ASCII-only. `Number.parseInt` is `Decimal.ParseNat`, which reads the leading decimal digits.

## Model

| member | source | states |
|---|---|---|
| Schema.ParseRole | app/api/setup-db/route.ts:19 | The role CHECK admits exactly "admin", "faculty" and "student", and reading back gives the same text |
| Schema.ParseStatus | app/api/setup-db/route.ts:50 | The status CHECK admits exactly "active", "completed" and "dropped", and reading back gives the same text |
| Schema.RoleRoundTrip | app/api/setup-db/route.ts:19 | Every role's text parses back to that role |
| Schema.StatusRoundTrip | app/api/setup-db/route.ts:50 | Every status's text parses back to that status |
| Store.ResolveRole | app/api/setup-db/route.ts:19 | An omitted role becomes 'student'; an explicit NULL violates NOT NULL; a text violates the CHECK exactly when it is not a role |
| Store.ResolveStatus | app/api/setup-db/route.ts:50 | An omitted status becomes 'active'; an explicit NULL is stored (no NOT NULL); other texts must be one of the three statuses |
| Store.InsertUser | app/api/setup-db/route.ts:15-23 | The insert succeeds exactly when the role resolves and neither the id nor the email is taken. A taken id gives users_pkey and a taken email gives users_email_key. On success exactly one row is added and no other row changes |
| Store.InsertDepartment | app/api/setup-db/route.ts:26-31 | The insert fails exactly when the name is taken (departments_name_key). Otherwise the row gets the next SERIAL id and nothing else changes |
| Store.InsertCourse | app/api/setup-db/route.ts:34-42 | Credits outside the 32-bit range, a taken code and a missing department each give their own error, in that order. Otherwise the row gets the next SERIAL id |
| Store.InsertEnrollment | app/api/setup-db/route.ts:45-53 | The insert succeeds exactly when the status resolves, the (student, course) pair is new and both referenced rows exist. A repeated pair gives the UNIQUE error |
| Store.InsertAnnouncement | app/api/setup-db/route.ts:56-64 | The insert succeeds exactly when the author and department it names exist (both are optional). Otherwise the row gets the next SERIAL id |
| Store.UpdateUser | app/dashboard/users/page.tsx:199-206 | Only the targeted row changes, and only its full name, role (when given) and department |
| Store.UpdateDepartment | app/dashboard/departments/page.tsx:157-163 | Renaming to another department's name fails on departments_name_key. Otherwise only the targeted row's name and description change |
| Store.EmptyWellFormed | app/api/setup-db/route.ts:15-64 | The freshly created schema satisfies the invariant: keys are ids, unique columns are unique, no dangling references, serials ahead of ids |
| Store.InsertUserWellFormed | app/api/setup-db/route.ts:15-23 | A users insert with a valid role, a fresh id and an unused email succeeds and keeps the invariant |
| Store.InsertDepartmentWellFormed | app/api/setup-db/route.ts:26-31 | A successful departments insert keeps the invariant |
| Store.InsertCourseWellFormed | app/api/setup-db/route.ts:34-42 | A successful courses insert keeps the invariant |
| Store.InsertEnrollmentWellFormed | app/api/setup-db/route.ts:45-53 | A successful enrollments insert keeps the invariant |
| Store.InsertAnnouncementWellFormed | app/api/setup-db/route.ts:56-64 | A successful announcements insert keeps the invariant |
| Store.UpdateUserWellFormed | app/api/setup-db/route.ts:15-23 | Updating a user's name, role or department keeps the invariant |
| Store.UpdateDepartmentWellFormed | app/api/setup-db/route.ts:26-31 | A successful department update keeps the invariant, including the unique names |
| Store.AddUserWellFormed | app/api/setup-db/route.ts:15-23 | Adding a row with a fresh id and email keeps the invariant |
| Store.AddEnrollmentWellFormed | app/api/setup-db/route.ts:45-53 | Adding an enrollment with a fresh id, a new pair and existing references keeps the invariant |
| Cascade.DetachAuthor | app/api/setup-db/route.ts:60 | ON DELETE SET NULL: the announcement no longer names the deleted author, and nothing else in it changes |
| Cascade.DeleteUser | app/api/setup-db/route.ts:45-64 | Deleting a user removes exactly that row and the user's enrollments. Their announcements stay with no author. Departments and courses are untouched |
| Cascade.DeleteDepartment | app/api/setup-db/route.ts:34-64 | Deleting a department removes exactly that row, its courses, those courses' enrollments and its announcements; users are untouched |
| Cascade.DeleteCourse | app/api/setup-db/route.ts:45-53 | Deleting a course removes exactly that row and its enrollments |
| Cascade.DeleteUserWellFormed | app/api/setup-db/route.ts:45-64 | The user cascade keeps the invariant |
| Cascade.DeleteUserKeysAndUniques | app/api/setup-db/route.ts:45-64 | The user cascade keeps keys, unique columns and serials intact |
| Cascade.DeleteUserNoOrphans | app/api/setup-db/route.ts:45-64 | After the user cascade no enrollment or announcement points at a missing row |
| Cascade.DeleteDepartmentWellFormed | app/api/setup-db/route.ts:34-64 | The department cascade keeps the invariant |
| Cascade.DeleteCourseWellFormed | app/api/setup-db/route.ts:45-53 | The course cascade keeps the invariant |
| Cascade.DeleteDepartmentRemovesCourseEnrollments | app/api/setup-db/route.ts:40-48 | After a department cascade an enrollment survives exactly when its course does |
| Seed.InsertIfAbsent | app/api/setup-db/route.ts:157-163 | `ON CONFLICT (name) DO NOTHING`: afterwards the name is taken, and an already present name leaves the store unchanged |
| Seed.SeedDepartments | app/api/setup-db/route.ts:157-163 | After seeding, the taken names are exactly the earlier ones plus the listed ones, and existing rows are unchanged |
| Seed.SeedWhenPresent | app/api/setup-db/route.ts:163 | Seeding names that are all present changes nothing |
| Seed.SeedIdempotent | app/api/setup-db/route.ts:155-164 | Running the sample-data insert twice gives the same store as running it once |
| Seed.SeedWellFormed | app/api/setup-db/route.ts:155-164 | Seeding keeps the invariant |
| Policy.PoliciesOn | app/api/setup-db/route.ts:78-152 | Every policy attached to a table was created ON that table |
| Policy.CheckExpr | app/api/setup-db/route.ts:88-90 | A policy without WITH CHECK checks new rows with its USING expression |
| Policy.UsersRules | app/api/setup-db/route.ts:80-90 | Users rows: a caller reads their own row, or any row as admin; only admins update; no one inserts or deletes |
| Policy.CatalogRules | app/api/setup-db/route.ts:93-108 | Departments and courses: everyone reads; only admins insert, update or delete |
| Policy.EnrollmentRules | app/api/setup-db/route.ts:111-130 | Enrollments are readable by their own student, by faculty of the course's department, and by admins. Only admins write them |
| Policy.AnnouncementRules | app/api/setup-db/route.ts:133-151 | Announcements: everyone reads; admins and faculty insert; admins, or the author keeping authorship, update; only admins delete |
| Policy.AnnouncementInsertRule | app/api/setup-db/route.ts:137-143 | The announcement INSERT check holds exactly for admin and faculty callers |
| Policy.AnnouncementUpdateRule | app/api/setup-db/route.ts:145-151 | An announcement update is allowed exactly for admins, or for the author when the new row keeps them as author |
| Policy.AnnouncementUpdatePolicies | app/api/setup-db/route.ts:145-151 | The UPDATE USING and the implied WITH CHECK each hold exactly for admins and the row's author |
| Policy.AnnouncementDeleteRule | app/api/setup-db/route.ts:149-151 | Only admins delete announcements |
| Policy.AnonymousReadsOnlyPublicTables | app/api/setup-db/route.ts:70-151 | Without a session one reads departments, courses and announcements, not users or enrollments, and writes nothing |
| Access.UpdateUserAs | app/api/setup-db/route.ts:88-90 | A users UPDATE takes effect exactly for an admin caller and an existing row; otherwise it is a silent no-op, never an error |
| Access.InsertUserAs | app/dashboard/users/page.tsx:150-156 | Inserting a users row from the page always fails with a row-security error on users, whoever the caller |
| Access.InsertDepartmentAs | app/api/setup-db/route.ts:97-99 | An admin's departments INSERT is the plain insert; anyone else's is a row-security error |
| Access.UpdateDepartmentAs | app/api/setup-db/route.ts:97-99 | An admin's departments UPDATE is the plain update; anyone else's changes nothing and reports nothing |
| Access.DeleteDepartmentAs | app/api/setup-db/route.ts:97-99 | An admin's delete of an existing department runs the cascade; anyone else's changes nothing |
| Access.InsertAnnouncementAs | app/api/setup-db/route.ts:137-143 | An admin's or a faculty member's announcement insert is the plain insert; anyone else's is a row-security error |
| Queries.Scan | app/dashboard/departments/page.tsx:86-88 | `select("*")` returns as many rows as the table holds, each one of them, and nothing else: the relation `IsScanOf` that the store-linking lemmas assume of the rows they are given |
| Queries.DepartmentsByName | app/dashboard/departments/page.tsx:86-89 | `.order("name")` yields the same rows, sorted by name |
| Queries.CoursesByCode | components/dashboard/faculty-dashboard.tsx:35-45 | `.order("code")` yields the same rows, sorted by code |
| Queries.UsersNewestFirst | app/dashboard/users/page.tsx:101-104 | Newest-first ordering of users keeps every row |
| Queries.AnnouncementsNewestFirst | app/dashboard/announcements/page.tsx:67-74 | Newest-first ordering of announcements keeps every row |
| Queries.EnrollmentsNewestFirst | components/dashboard/student-dashboard.tsx:19-33 | Ordering enrollments by enrollment date, latest first, keeps every row |
| Queries.SessionUser | app/dashboard/announcements/page.tsx:48-52 | The `.single()` read of one's own row finds it exactly when the session user has a users row |
| Queries.SessionRole | app/dashboard/users/page.tsx:76-83 | The role the page reads is the session user's stored role, and it is unset exactly when there is no such row |
| Queries.VisibleUsers | app/api/setup-db/route.ts:80-86 | A users SELECT returns exactly one's own row, or every row for an admin |
| Queries.EnrollmentVisible | app/api/setup-db/route.ts:111-130 | An enrollment is readable exactly by its student, by faculty of its course's department, and by admins |
| Queries.VisibleEnrollments | app/api/setup-db/route.ts:111-130 | An enrollments SELECT returns exactly the rows the three SELECT policies admit |
| Queries.AdminSeesAllUsers | app/api/setup-db/route.ts:84-86 | For an admin the users SELECT filters nothing out |
| Order.LexTotal | app/dashboard/departments/page.tsx:89 | Any two texts are comparable in the text ordering |
| Order.LexTransitive | app/dashboard/departments/page.tsx:89 | The text ordering is transitive |
| Order.ByTextIsTotalPreorder | app/dashboard/departments/page.tsx:89 | Ordering by a text column is a total preorder, so sorting by it is well defined |
| Order.NewestFirstIsTotalPreorder | app/dashboard/users/page.tsx:104 | Descending order on a NOT NULL timestamp is a total preorder |
| Order.NullsFirstNewestIsTotalPreorder | app/dashboard/courses/page.tsx:22 | Descending order on a nullable timestamp, NULLs first, is a total preorder |
| Order.NullsComeFirst | app/dashboard/courses/page.tsx:22 | In such a listing every row without a timestamp precedes every row with one |
| Seqs.SortBy | app/dashboard/users/page.tsx:104 | Sorting yields a sorted permutation of its input |
| Seqs.Take | components/dashboard/admin-dashboard.tsx:82 | `.limit(n)` keeps a prefix of length min(n, rows) |
| Seqs.Top | components/dashboard/admin-dashboard.tsx:78-82 | Ordering then `.limit(n)` yields min(n, rows) sorted rows taken from the input, none ranked below a row left out |
| Seqs.FilterIsSubsequence | app/dashboard/users/page.tsx:261 | `Array.filter` keeps the listing's order |
| Seqs.SumOfPermutation | components/dashboard/student-dashboard.tsx:121 | A sum over the rows does not depend on their order |
| Text.Lower | app/dashboard/users/page.tsx:264 | Lower-casing keeps the length and maps each letter |
| Text.Upper | components/dashboard/header.tsx:40 | Upper-casing keeps the length and maps each letter |
| Text.IncludesIff | app/dashboard/users/page.tsx:264 | `includes` holds exactly when the needle occurs at some position |
| Text.EmptyQueryMatches | app/dashboard/users/page.tsx:264 | Every text includes the empty query |
| Text.Split | components/dashboard/header.tsx:37 | Splitting on spaces yields at least one piece and no piece contains a space |
| Text.JoinSplit | components/dashboard/header.tsx:37-39 | Re-joining the pieces with spaces gives back the text |
| Text.HeadsOfSplit | components/dashboard/header.tsx:37-39 | The first characters of the pieces are exactly the word-initial characters of the text |
| Text.WordStartsOfSpaces | components/dashboard/header.tsx:37-39 | A text of spaces has no word-initial characters |
| Initials.GetInitials | components/dashboard/header.tsx:34-42 | The avatar text has at most two characters. It is "U" for a missing or empty name, and otherwise the first two word initials, upper-cased |
| Initials.UpperTake | components/dashboard/header.tsx:40-41 | Upper-casing then truncating equals truncating then upper-casing |
| Initials.AllSpacesHasNoInitials | components/dashboard/header.tsx:35-41 | A non-empty name made only of spaces gets an empty avatar text, not "U" |
| Initials.InitialsStartWords | components/dashboard/header.tsx:37-41 | Every avatar character is the upper-cased first letter of some word of the name |
| Decimal.NatToString | app/dashboard/announcements/page.tsx:199 | `toString()` of an id is a non-empty digit string with no leading zero |
| Decimal.ParseNat | app/dashboard/announcements/page.tsx:189 | `Number.parseInt` yields no number exactly when the text does not start with a digit |
| Decimal.ParseNatToString | app/dashboard/announcements/page.tsx:185-199 | Parsing an id's text gives back the id |
| Decimal.NatToStringInjective | app/dashboard/announcements/page.tsx:199 | Distinct ids have distinct texts |
| Decimal.ParseNatLabel | app/dashboard/users/page.tsx:423 | A count followed by a word reads back as the count |
| DepartmentSelect.AsWritten | app/dashboard/users/page.tsx:155 | `value \|\| null` turns only the empty text into NULL and keeps every other value |
| DepartmentSelect.NoneItemStoredAsText | app/dashboard/users/page.tsx:378 | Picking "None" stores the department text "none" |
| DepartmentSelect.Picked | app/dashboard/users/page.tsx:378 | The intended reading: NULL exactly for no choice or the "None" item, and never the text "none" |
| DepartmentSelect.PickedDiffersOnlyOnNone | app/dashboard/users/page.tsx:378 | The intended reading and the one as written agree on every value except "none" |
| DepartmentSelect.OrNull | app/dashboard/users/page.tsx:204 | An optional department becomes NULL exactly when it is missing or empty, and is otherwise kept |
| Labels.Found | app/dashboard/users/page.tsx:423 | The count line reads back as the count, and it ends in "s found" exactly when the count is not one |
| Badges.DisplayName | app/dashboard/profile/page.tsx:189 | The display name is the full name when it is set and non-empty, and "User" otherwise; it is never empty |
| Badges.RoleBadge | components/dashboard/sidebar.tsx:152 | The badge is "Role" before loading. Otherwise it is the role's text with its first letter upper-cased, so lower-casing it gives the role text back |
| Badges.RoleBadgeDistinguishesRoles | components/dashboard/sidebar.tsx:152 | Equal badges mean equal roles |
| UsersPage.Load | app/dashboard/users/page.tsx:76-107 | Only an admin gets the listing. It holds the departments sorted by name and the users newest first. A failed SELECT empties its own list and every later one |
| UsersPage.AdminGateMatchesPolicies | app/dashboard/users/page.tsx:86-89 | The page's admin gate opens exactly when the policies treat the caller as admin, and then every users row is visible |
| UsersPage.ValidateNewUser | app/dashboard/users/page.tsx:123-126 | The form is rejected, with the fixed message, exactly when email, full name or password is empty |
| UsersPage.AddUser | app/dashboard/users/page.tsx:118-161 | The auth account is requested exactly when the form passes. Its error or missing user is shown. Otherwise the users insert, with the department as `value \|\| null` gives it, fails on row security, and the store is never changed |
| UsersPage.PickEditDepartment | app/dashboard/users/page.tsx:560-575 | The edit picker sets only the department: NULL only for the empty value, otherwise the picked value, so "None" gives the text "none" |
| UsersPage.PickingNoneStoresNoneText | app/dashboard/users/page.tsx:560-575 | Picking "None" and saving as admin stores the department text "none", not NULL |
| UsersPage.PickEditDepartmentCorrected | app/dashboard/users/page.tsx:560-575 | The intended edit picker: NULL for no choice or "None", the picked name otherwise |
| UsersPage.CorrectedPickingNoneClearsDepartment | app/dashboard/users/page.tsx:560-575 | With the intended picker, picking "None" and saving as admin leaves the user with no department |
| UsersPage.EditUser | app/dashboard/users/page.tsx:192-211 | Only the selected user's name, role and department change, and only for an admin; email and every other row stay |
| UsersPage.RemoveUser | app/dashboard/users/page.tsx:233-244 | Deleting the auth account removes the users row and the user's enrollments and detaches their announcements; a failed auth call changes nothing |
| UsersPage.FilteredUsers | app/dashboard/users/page.tsx:261-272 | A user is listed exactly when the query occurs in email, name, department or role and the tab admits the role |
| UsersPage.FilteredUsersKeepsOrder | app/dashboard/users/page.tsx:261-272 | The filtered list is a subsequence of the listing |
| UsersPage.EmptySearchKeepsAll | app/dashboard/users/page.tsx:263-270 | With an empty query on "all" every user is listed, in order |
| DepartmentsPage.Load | app/dashboard/departments/page.tsx:70-92 | Only an admin gets the listing; it is the rows sorted by name, or empty when the SELECT fails |
| DepartmentsPage.AddDepartment | app/dashboard/departments/page.tsx:103-148 | An empty name, a non-admin caller and a taken name each fail with their own error, in that order, and change nothing. Otherwise the row is stored with the description as text. The form resets and the list becomes the reloaded rows by name exactly when the reload succeeds; a failed reload shows its error and keeps the form and the old list |
| DepartmentsPage.EditDepartment | app/dashboard/departments/page.tsx:150-168 | An admin's edit fails only on a name clash. It changes exactly the selected row's name and description. A non-admin's edit changes nothing |
| DepartmentsPage.RemoveDepartment | app/dashboard/departments/page.tsx:190-200 | An admin's delete removes the department and its courses and leaves users alone; otherwise nothing changes |
| DepartmentsPage.DeleteDialogIsAccurate | app/dashboard/departments/page.tsx:440-443 | After the delete nothing refers to the department: no course, no enrollment of its courses, no announcement; the invariant holds |
| DepartmentsPage.FilteredDepartments | app/dashboard/departments/page.tsx:217-221 | A department is listed exactly when the query occurs in its name or description |
| DepartmentsPage.FilteredDepartmentsKeepsOrder | app/dashboard/departments/page.tsx:217-221 | The filtered list is a subsequence of the listing |
| DepartmentsPage.EmptySearchKeepsAll | app/dashboard/departments/page.tsx:217-221 | An empty query lists every department |
| ProfilePage.Load | app/dashboard/profile/page.tsx:44-66 | The form starts from the session user's own row, with a NULL name shown as empty. Without that row nothing loads. The department choices are the departments SELECT's rows sorted by name, or none when it fails |
| ProfilePage.PickDepartment | app/dashboard/profile/page.tsx:244-257 | The picker changes only the department: NULL only for the empty value, otherwise the picked value, so "None" gives the text "none" |
| ProfilePage.PickingNoneStoresNoneText | app/dashboard/profile/page.tsx:244-257 | An admin who picks "None" and saves gets the success banner and a stored department "none" |
| ProfilePage.PickDepartmentCorrected | app/dashboard/profile/page.tsx:244-257 | The intended picker: NULL for no choice or "None", the picked name otherwise |
| ProfilePage.CorrectedPickingNoneClearsDepartment | app/dashboard/profile/page.tsx:244-257 | With the intended picker the same save leaves the admin with no department |
| ProfilePage.UpdateProfile | app/dashboard/profile/page.tsx:77-115 | With a session the page always reports success and shows the form's values. The stored row changes only for an admin |
| ProfilePage.NonAdminSaveIsSilentNoOp | app/dashboard/profile/page.tsx:89-109 | A non-admin's real change reports success, leaves the store unchanged, and makes the shown profile differ from the stored row |
| ProfilePage.AdminSaveAgreesWithRow | app/dashboard/profile/page.tsx:89-109 | For an admin the shown profile equals the stored row after saving |
| ProfilePage.CheckNewPassword | app/dashboard/profile/page.tsx:123-130 | The password is accepted exactly when both entries match and it has at least 6 characters; a mismatch is reported first |
| ProfilePage.UpdatePassword | app/dashboard/profile/page.tsx:117-152 | The auth call happens exactly for an accepted password. Success clears the fields; a failure keeps them and shows the error |
| ProfilePage.PasswordErrorNeverBlank | app/dashboard/profile/page.tsx:147-148 | A password change fails exactly when a non-empty error is shown, even when the auth error carries no message |
| AnnouncementsPage.AuthorName | app/dashboard/announcements/page.tsx:69-72 | The author's name comes through exactly when the caller may read the author's users row and the name is set |
| AnnouncementsPage.DepartmentName | app/dashboard/announcements/page.tsx:72 | The department's name comes through exactly when the announcement names an existing department |
| AnnouncementsPage.JoinAll | app/dashboard/announcements/page.tsx:67-77 | The join keeps every row in place and attaches its author and department names |
| AnnouncementsPage.OthersNamesHidden | app/dashboard/announcements/page.tsx:255 | A non-admin sees "Unknown" as the author of every announcement they did not write |
| AnnouncementsPage.AdminSeesAuthorNames | app/dashboard/announcements/page.tsx:255 | An admin sees every existing author's name |
| AnnouncementsPage.AuthorLabel | app/dashboard/announcements/page.tsx:255 | The author label is the name, or "Unknown" when none came through |
| AnnouncementsPage.Load | app/dashboard/announcements/page.tsx:38-86 | Without the session user's row nothing loads. Otherwise the departments come sorted by name and the listing newest first, each holding exactly its SELECT's rows. A failed SELECT empties its own list and every later one |
| AnnouncementsPage.EveryAnnouncementListed | app/dashboard/announcements/page.tsx:67-77 | Every announcement passes the SELECT policy, so reading the whole table lists every announcement of the store and nothing else |
| AnnouncementsPage.CanCreateMatchesInsertPolicy | app/dashboard/announcements/page.tsx:142 | The "New Announcement" button shows exactly when the INSERT policy would accept the caller's announcement |
| AnnouncementsPage.SelectValue | app/dashboard/announcements/page.tsx:185 | The picker's value is empty exactly when no department is chosen |
| AnnouncementsPage.DepartmentChoice | app/dashboard/announcements/page.tsx:189 | The empty value means no department; a chosen department comes from a digit string |
| AnnouncementsPage.ChoiceRoundTrip | app/dashboard/announcements/page.tsx:185-189 | Reading the picker's value back gives the chosen department |
| AnnouncementsPage.DepartmentItemSelectsIt | app/dashboard/announcements/page.tsx:189-199 | Each department's item selects that department's id |
| AnnouncementsPage.CreateAnnouncement | app/dashboard/announcements/page.tsx:88-132 | Without a session, for a student, or for a missing department nothing changes. Otherwise exactly one row is added, authored by the caller. A successful refresh resets the form, closes the dialog and lists newest first |
| AnnouncementsPage.NewAnnouncementListed | app/dashboard/announcements/page.tsx:95-122 | When the refresh reads the whole table, the announcement just published is in the listing and the dialog is closed |
| AnnouncementsPage.BlankFormIsPublished | app/dashboard/announcements/page.tsx:95-104 | Staff can publish an announcement with an empty title and content |
| AnnouncementsPage.FilteredAnnouncements | app/dashboard/announcements/page.tsx:134-140 | An announcement is listed exactly when the query occurs in its title, content, department name or author name |
| AnnouncementsPage.FilteredAnnouncementsKeepsOrder | app/dashboard/announcements/page.tsx:134-140 | The filtered list is a subsequence of the listing |
| AnnouncementsPage.EmptySearchKeepsAll | app/dashboard/announcements/page.tsx:134-140 | An empty query lists every announcement |
| Navigation.Destinations | components/dashboard/sidebar.tsx:39-80 | Everyone gets the four base links. Admins and faculty also get Users and Departments, after them. No two links share a target |
| Navigation.SidebarLinks | components/dashboard/sidebar.tsx:39-80 | A link is highlighted exactly when its target is the current path, so at most one is |
| Navigation.MobileLinks | components/dashboard/header.tsx:90-130 | The closed menu shows nothing. The open one shows the sidebar's destinations with only "/dashboard" highlighted |
| Navigation.Toggle | components/dashboard/header.tsx:51 | The menu button flips the menu's state |
| Navigation.MobileMatchesSidebar | components/dashboard/header.tsx:93-127 | The mobile menu leads to the same places as the sidebar |
| Navigation.MobileHighlightIgnoresPath | components/dashboard/header.tsx:93 | Away from "/dashboard" the mobile menu still highlights Dashboard, while the sidebar does not |
| Navigation.FacultyLinksLeadToAccessDenied | components/dashboard/sidebar.tsx:113 | Faculty are shown the Users and Departments links, and both pages deny them |
| Navigation.StudentsSeeNoAdministration | components/dashboard/sidebar.tsx:113 | Students get no link to the Users or Departments page |
| AdminDashboard.Load | components/dashboard/admin-dashboard.tsx:27-85 | Any failed count leaves every figure zero and the recent list empty. Otherwise the figures are the counts, and the recent users are shown when their SELECT succeeds |
| AdminDashboard.WithRole | components/dashboard/admin-dashboard.tsx:33-43 | `.eq("role", r)` keeps exactly the rows with that role |
| AdminDashboard.Counted | components/dashboard/admin-dashboard.tsx:27-66 | All six counts succeed. The users count is the number of rows the caller may read, role-filtered for students and faculty; the courses, departments and announcements counts are the rows their SELECTs return |
| AdminDashboard.FiguresMatchStore | components/dashboard/admin-dashboard.tsx:27-66 | When each SELECT reads its whole table, an admin sees the sizes of the users, courses, departments and announcements tables |
| AdminDashboard.RoleCountsWithinTotal | components/dashboard/admin-dashboard.tsx:27-45 | Students plus faculty never exceed the user total |
| AdminDashboard.AdminCountsWholeTable | components/dashboard/admin-dashboard.tsx:27-45 | For an admin the figures count the whole users table |
| AdminDashboard.RecentUsers | components/dashboard/admin-dashboard.tsx:78-82 | At most five users, newest first, and no user left out is newer than one shown |
| AdminDashboard.RecentUsersAreNewest | components/dashboard/admin-dashboard.tsx:78-82 | Every shown user was created no earlier than any user left out |
| FacultyDashboard.DepartmentNamed | components/dashboard/faculty-dashboard.tsx:26-32 | `.single()` by name finds a department exactly when one row has that name |
| FacultyDashboard.IdsOf | components/dashboard/faculty-dashboard.tsx:57 | The ids list holds exactly the courses' ids |
| FacultyDashboard.CoursesOf | components/dashboard/faculty-dashboard.tsx:35-45 | Exactly the department's courses, sorted by code |
| FacultyDashboard.EnrolledIn | components/dashboard/faculty-dashboard.tsx:40-42 | A course card's count is how many of the readable enrollment rows name that course, and it is zero exactly when none does |
| FacultyDashboard.Cards | components/dashboard/faculty-dashboard.tsx:120-134 | One card per course, in order, each with its enrollment count |
| FacultyDashboard.LatestBy | components/dashboard/faculty-dashboard.tsx:63-72 | The five newest of the faculty member's own announcements, or all of them when fewer, newest first |
| FacultyDashboard.LatestAreNewest | components/dashboard/faculty-dashboard.tsx:63-72 | None of the member's announcements left out is newer than one shown |
| FacultyDashboard.Load | components/dashboard/faculty-dashboard.tsx:17-81 | With no department or an empty one the view is "not assigned". A department lookup that does not find exactly one row, or a failed courses SELECT, gives empty figures. Otherwise the department's courses show with their counts. A failed count then leaves 0 students and no announcements; otherwise the active-enrollment figure shows, and the latest own announcements unless their SELECT fails |
| FacultyDashboard.StudentsFigureCountsAllActiveRows | components/dashboard/faculty-dashboard.tsx:51-61 | For a faculty member of that department the figure counts every active enrollment row of its courses, students repeated |
| StudentDashboard.CourseOf | components/dashboard/student-dashboard.tsx:23-29 | An enrollment's course is joined exactly when it exists |
| StudentDashboard.JoinCourses | components/dashboard/student-dashboard.tsx:19-33 | The join keeps every enrollment in place and attaches its course |
| StudentDashboard.Load | components/dashboard/student-dashboard.tsx:17-36 | The listing holds exactly the student's own active enrollments, latest first, each with its course; a failed SELECT shows nothing |
| StudentDashboard.ListsOwnActiveRows | components/dashboard/student-dashboard.tsx:19-33 | When the SELECT reads the whole table, every active enrollment of the student in the store is listed, and only the student's rows are |
| StudentDashboard.OwnEnrollmentsAllVisible | components/dashboard/student-dashboard.tsx:31 | Row security hides none of the student's own enrollments |
| StudentDashboard.ActiveCourses | components/dashboard/student-dashboard.tsx:116 | "Active Courses" is the number of listed enrollments |
| StudentDashboard.TotalCredits | components/dashboard/student-dashboard.tsx:121 | An empty listing totals zero credits |
| StudentDashboard.TotalCreditsNonNegative | components/dashboard/student-dashboard.tsx:121 | With no negative credits the total is not negative |
| StudentDashboard.TotalCreditsIgnoresOrder | components/dashboard/student-dashboard.tsx:121 | The total does not depend on the listing's order |
| StudentDashboard.TotalCreditsOfOneMore | components/dashboard/student-dashboard.tsx:121 | One more listed course adds its credits (0 without a course) |
| StudentDashboard.CreditsLabel | components/dashboard/student-dashboard.tsx:78-79 | The credits line reads back as the number and ends in "s" exactly when it is not one |
| LibTypes.FromCoursesRow | lib/types.ts:13-24 | A courses row read as the catalogue type keeps code, title, credits, description and creation time. Its id text reads back as the id, and the fields the table lacks are absent |
| LibTypes.FromCoursesRowKeepsIdsApart | lib/types.ts:14 | Distinct course ids give distinct id texts |
| CoursesPage.Load | app/dashboard/courses/page.tsx:22-28 | The listing is the rows newest first with NULL times first, or empty when the SELECT fails |
| CoursesPage.DepartmentCellAlwaysEmpty | app/dashboard/courses/page.tsx:100 | Every listed course from the courses table has no department to show |
| CoursesPage.FilteredCourses | app/dashboard/courses/page.tsx:36-40 | A course is listed exactly when the query occurs in its title or code |
| CoursesPage.FilteredCoursesKeepsOrder | app/dashboard/courses/page.tsx:36-40 | The filtered list is a subsequence of the listing |
| CoursesPage.EmptySearchKeepsAll | app/dashboard/courses/page.tsx:36-40 | An empty query lists every course |
| CoursesPage.EmptyMessage | app/dashboard/courses/page.tsx:89-91 | The empty-table message names the search exactly when there is a query |
| StudentsPage.Load | app/dashboard/students/page.tsx:22-31 | The listing holds exactly the student profiles, newest first with NULL times first, or nothing when the SELECT fails |
| StudentsPage.FilteredStudents | app/dashboard/students/page.tsx:40-44 | A profile is listed exactly when the query occurs in its full name or email |
| StudentsPage.FilteredStudentsKeepsOrder | app/dashboard/students/page.tsx:40-44 | The filtered list is a subsequence of the listing |
| StudentsPage.EmptySearchKeepsNamed | app/dashboard/students/page.tsx:40-44 | An empty query still drops profiles with neither a name nor an email |
| StudentsPage.StudentIdLabel | app/dashboard/students/page.tsx:102 | The student-id cell is the id, or "N/A" when it is missing or empty |

## Left out

- Supabase transport and the auth service are not modelled. `auth.getSession`, `auth.admin.createUser`, `auth.admin.deleteUser` and `auth.updateUser` become parameters: the session user, or the outcome of the auth call.
- Of the foreign key from users to `auth.users`, only the delete cascade is modelled (`UsersPage.RemoveUser`).
- Timestamps are opaque integers (`Time`) that the caller supplies, and `toLocaleDateString` formatting is not modelled.
- React state, re-renders, loading spinners, `setTimeout` delays, `window.location` redirects and sign-out are not modelled. A page's state after a handler is the handler's result.
- A failed INSERT advances the SERIAL sequence in PostgreSQL. It does not here, so that seeding is exactly idempotent. Ids may therefore be smaller than PostgreSQL's but are still fresh.
- `Policy.UsersRules`, `Policy.CatalogRules`, `Policy.EnrollmentRules`, `Policy.AnnouncementRules`, `Policy.AnnouncementInsertRule`, `Policy.AnnouncementUpdateRule` and `Policy.AnnouncementDeleteRule`: every admin policy, the faculty enrollments policy and the announcements INSERT policy decide the caller's role with `EXISTS (SELECT 1 FROM users ...)` (app/api/setup-db/route.ts:84-151). Inside the users table's own policies that subquery is checked by the same policies again, which PostgreSQL reports as infinite recursion, and the other tables' policies reach it through the users SELECT. The model gives all of them their evident meaning instead: the caller's own users row decides the role. The consequences listed above hold under that reading.
- PostgreSQL has no `CREATE POLICY IF NOT EXISTS` form, so the policy statements at app/api/setup-db/route.ts:78-153 are rejected as written. The model takes the tables and policies as if every statement had run once on an empty database. `CREATE TABLE IF NOT EXISTS` re-runs are not modelled. Only the seed's `ON CONFLICT DO NOTHING` is modelled, with idempotence proved.
- `Decimal.ParseNat`: `Number.parseInt`'s whitespace skipping, sign, and other radixes are not modelled. The picker only produces digit strings or the empty text.
- `Labels.Found` and `StudentDashboard.CreditsLabel`: JavaScript string lengths count UTF-16 code units, here characters.
- `Initials.GetInitials`: JavaScript's `n[0]` and `substring(0, 2)` (components/dashboard/header.tsx:38-41) index UTF-16 code units, so a word starting with a character outside the Basic Multilingual Plane contributes half of a surrogate pair. Here strings are sequences of characters and each initial is a whole character.
- `ProfilePage.CheckNewPassword`: `newPassword.length` counts UTF-16 code units, so a password of three characters outside the Basic Multilingual Plane passes the six-unit check. Here the length counts characters.
- `Text.Lower` and `Text.Upper`: case mapping is ASCII only. JavaScript's full Unicode case mapping, and PostgreSQL collations other than "C", are not modelled.
- `AdminDashboard.Load`: a count error is taken as the whole load failing, which the code's shared `try` block does. Network failures other than an error result are not modelled.
- `StudentDashboard.TotalCredits`: its own contract states only the empty case. Non-negativity, order independence and additivity are in the three lemmas beside it.
- `LibTypes.FromCoursesRow`: lib/types.ts declares the course id as a string, but a row read from the courses table keeps its numeric id at run time. The conversion to decimal text follows the declared type only; it is a typing fiction.
- `StudentsPage.Load`: the `profiles` table it reads is not created by the setup route, so its rows are a parameter, not part of the store.
- app/page.tsx, app/dashboard/page.tsx, app/dashboard/layout.tsx, lib/supabase.ts and app/dashboard/courses/[id]/page.tsx are not part of this model. These are the landing page, a stats overview that counts `profiles` and `courses` rows, the layout, the client factory and the course detail page. No file shown here renders the three role dashboards; their components are modelled with the role and department passed in.
- The `/dashboard/schedule` and `/dashboard/settings` pages that the navigation links to are not part of this model.
- The code has no enrollment status transitions, no student self-enrolment, no faculty writes to enrollments and no positive-credits rule, so the model has none either.

## Findings

| source | as written | input that shows it | evidently intended | confidence | as-written member | corrected member |
|---|---|---|---|---|---|---|
| app/dashboard/users/page.tsx:378 | The department pickers (users page add and edit dialogs, profile page) offer a "None" item whose value is "none", and the handlers store `value \|\| null`, which keeps any non-empty text | An admin picks "None" in the edit-user dialog and saves: the user's row is updated with department "none". Picking "None" on the profile page and saving does the same to the admin's own row | Picking "None" stores NULL | not executed | DepartmentSelect.AsWritten | DepartmentSelect.Picked |

`DepartmentSelect.NoneItemStoredAsText` exhibits the as-written behaviour. `DepartmentSelect.PickedDiffersOnlyOnNone` shows that the corrected reading changes nothing else. The handlers as written use `AsWritten`: `UsersPage.AddUser`, `UsersPage.PickEditDepartment` and `ProfilePage.PickDepartment`, with `UsersPage.PickingNoneStoresNoneText` and `ProfilePage.PickingNoneStoresNoneText` showing the stored "none". The corrected pickers `UsersPage.PickEditDepartmentCorrected` and `ProfilePage.PickDepartmentCorrected` use `Picked`, and `UsersPage.CorrectedPickingNoneClearsDepartment` and `ProfilePage.CorrectedPickingNoneClearsDepartment` prove that saving after "None" then stores NULL. The add-user dialog has the same picker, but its users insert always fails on row security, so its value never reaches a row.
