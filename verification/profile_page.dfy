/** The profile page: the session user's own row shown in a form, saving the
    full name and department, and the password change. */
module ProfilePage {
  import opened Wrappers
  import opened Schema
  import opened Store
  import opened Policy
  import opened Access
  import opened Queries
  import opened Seqs
  import opened Order
  import opened Text
  import opened DepartmentSelect

  /** `profileData`: the editable copy of the row. */
  datatype ProfileForm = ProfileForm(fullName: string, email: string, department: Option<string>)

  const BlankProfile: ProfileForm := ProfileForm("", "", None)

  /** What loading leaves on the page: the user (`user`), the form, and the
      department choices. */
  datatype Loaded = Loaded(user: Option<User>, form: ProfileForm, departments: seq<Department>)

  /** `fetchData`: the session user's own row (`.single()`), then the
      departments. Without a session or a row nothing is set; a failed
      departments SELECT leaves the choices empty. */
  function Load(caller: Caller, s: Store, departmentRows: Result<seq<Department>, DbError>): (r: Loaded)
    requires KeysAreIds(s)
    ensures r.user.Some? <==> caller.Some? && caller.value in s.users
    ensures r.user.None? ==> r == Loaded(None, BlankProfile, [])
    ensures r.user.Some? ==>
              && r.user.value == s.users[caller.value]
              && r.form.email == r.user.value.email
              && r.form.department == r.user.value.department
              && (r.user.value.fullName.Some? ==> r.form.fullName == r.user.value.fullName.value)
              && (r.user.value.fullName.None? ==> r.form.fullName == "")
    ensures departmentRows.Err? ==> r.departments == []
    ensures r.user.Some? && departmentRows.Ok? ==>
              && SortedBy(r.departments, ByText(Queries.DepartmentName))
              && multiset(r.departments) == multiset(departmentRows.value)
  {
    match SessionUser(caller, s)
    case None => Loaded(None, BlankProfile, [])
    case Some(u) =>
      var form := ProfileForm(u.fullName.GetOr(""), u.email, u.department);
      match departmentRows
      case Err(_) => Loaded(Some(u), form, [])
      case Ok(ds) => Loaded(Some(u), form, DepartmentsByName(ds))
  }

  /** The department picker's `onValueChange`, `value || null` as written:
      the "None" item is kept as the text "none". */
  function PickDepartment(f: ProfileForm, value: string): (r: ProfileForm)
    ensures r.fullName == f.fullName && r.email == f.email
    ensures r.department.None? <==> value == ""
    ensures r.department.Some? ==> r.department.value == value
  {
    f.(department := AsWritten(value))
  }

  /** The picker as intended, reading "None" as no department. */
  function PickDepartmentCorrected(f: ProfileForm, value: string): (r: ProfileForm)
    ensures r.fullName == f.fullName && r.email == f.email
    ensures r.department.None? <==> value == "" || value == NoneItem
    ensures r.department.Some? ==> r.department.value == value
  {
    f.(department := Picked(value))
  }

  const ProfileFallbackMessage: string := "An error occurred while updating your profile"
  const PasswordFallbackMessage: string := "An error occurred while updating your password"

  /** `error.message || fallback`: an error without a message shows the fallback. */
  function ErrorText(message: string, fallback: string): (r: string)
    ensures message != "" ==> r == message
    ensures message == "" ==> r == fallback
    ensures fallback != "" ==> r != ""
  {
    if message != "" then message else fallback
  }

  /** The page state a submit leaves: the store, the local copy of the user,
      the success banner and the error banner. */
  datatype Saved = Saved(store: Store, user: Option<User>, success: bool, error: Option<string>)

  /** `handleUpdateProfile`: UPDATE the session user's own row with the form's
      full name (stored as typed, empty text included) and department, then
      copy both into the local user and show success. */
  function UpdateProfile(s: Store, caller: Caller, user: Option<User>, f: ProfileForm): (r: Saved)
    ensures caller.None? ==> r == Saved(s, user, false, None)
    ensures caller.Some? ==> r.success && r.error.None?
    ensures caller.Some? && user.Some? ==>
              r.user == Some(user.value.(fullName := Some(f.fullName), department := f.department))
    ensures user.None? ==> r.user.None?
    ensures r.store.users.Keys == s.users.Keys
    ensures caller.Some? && IsAdmin(caller, s) && caller.value in s.users ==>
              && r.store.users[caller.value] ==
                   s.users[caller.value].(fullName := Some(f.fullName), department := f.department)
              && r.store == s.(users := r.store.users)
              && (forall k :: k in s.users && k != caller.value ==> r.store.users[k] == s.users[k])
    ensures !IsAdmin(caller, s) || caller.None? || caller.value !in s.users ==> r.store == s
  {
    match caller
    case None => Saved(s, user, false, None)
    case Some(id) =>
      // Row security turns a hidden UPDATE into a no-op, never an error, so
      // the `catch` that would show the error text is not reached.
      var t := UpdateUserAs(s, caller, id, Some(f.fullName), None, f.department).value;
      var local := match user
                   case None => None
                   case Some(u) => Some(u.(fullName := Some(f.fullName), department := f.department));
      Saved(t, local, true, None)
  }

  /** Only admins may update users rows, so a student or faculty member who
      saves a changed profile gets the success banner and a changed local
      copy while their row stays as it was. */
  lemma NonAdminSaveIsSilentNoOp(s: Store, caller: Caller, user: User, f: ProfileForm)
    requires KeysAreIds(s)
    requires caller.Some? && caller.value in s.users && !IsAdmin(caller, s)
    requires user == s.users[caller.value]
    requires f.fullName != user.fullName.GetOr("") || f.department != user.department
    ensures var r := UpdateProfile(s, caller, Some(user), f);
            && r.success && r.store == s
            && r.user != Some(r.store.users[caller.value])
  {
    var r := UpdateProfile(s, caller, Some(user), f);
    assert r.user.value.fullName == Some(f.fullName);
    if f.fullName != user.fullName.GetOr("") {
      assert r.user.value.fullName != user.fullName;
    }
  }

  /** An admin's save makes the row agree with the local copy. */
  lemma AdminSaveAgreesWithRow(s: Store, caller: Caller, user: User, f: ProfileForm)
    requires KeysAreIds(s)
    requires caller.Some? && caller.value in s.users && IsAdmin(caller, s)
    requires user == s.users[caller.value]
    ensures var r := UpdateProfile(s, caller, Some(user), f);
            r.success && r.user == Some(r.store.users[caller.value])
  {
  }

  /** An admin who picks "None" and saves stores a department named "none". */
  lemma PickingNoneStoresNoneText(s: Store, caller: Caller, user: User, f: ProfileForm)
    requires KeysAreIds(s)
    requires caller.Some? && caller.value in s.users && IsAdmin(caller, s)
    ensures var r := UpdateProfile(s, caller, Some(user), PickDepartment(f, NoneItem));
            r.success && r.store.users[caller.value].department == Some(NoneItem)
  {
  }

  /** With the intended picker the same save clears the department. */
  lemma CorrectedPickingNoneClearsDepartment(s: Store, caller: Caller, user: User, f: ProfileForm)
    requires KeysAreIds(s)
    requires caller.Some? && caller.value in s.users && IsAdmin(caller, s)
    ensures var r := UpdateProfile(s, caller, Some(user), PickDepartmentCorrected(f, NoneItem));
            r.success && r.store.users[caller.value].department.None?
  {
  }

  // ---------------------------------------------------------------------------
  // Password
  // ---------------------------------------------------------------------------

  datatype PasswordForm = PasswordForm(currentPassword: string, newPassword: string, confirmPassword: string)

  const BlankPassword: PasswordForm := PasswordForm("", "", "")

  const MismatchMessage: string := "New passwords do not match"
  const TooShortMessage: string := "Password must be at least 6 characters long"
  const MinPasswordLength: nat := 6

  /** The two checks before the auth call, in order: the confirmation must
      match, then the new password must be long enough. The current password
      is never checked. */
  function CheckNewPassword(f: PasswordForm): (r: Option<string>)
    ensures r.None? <==> f.newPassword == f.confirmPassword && |f.newPassword| >= MinPasswordLength
    ensures f.newPassword != f.confirmPassword ==> r == Some(MismatchMessage)
    ensures f.newPassword == f.confirmPassword && |f.newPassword| < MinPasswordLength ==> r == Some(TooShortMessage)
  {
    if f.newPassword != f.confirmPassword then Some(MismatchMessage)
    else if |f.newPassword| < MinPasswordLength then Some(TooShortMessage)
    else None
  }

  datatype PasswordResult = PasswordResult(form: PasswordForm, success: bool, error: Option<string>, authCalled: bool)

  /** `handleUpdatePassword`. `authError` is the message of the error
      `auth.updateUser` returns, if any. */
  function UpdatePassword(f: PasswordForm, authError: Option<string>): (r: PasswordResult)
    ensures r.authCalled <==> CheckNewPassword(f).None?
    ensures r.success <==> r.authCalled && authError.None?
    ensures r.success ==> r.form == BlankPassword && r.error.None?
    ensures !r.success ==> r.form == f && r.error.Some?
    ensures !r.authCalled ==> r.error == CheckNewPassword(f)
    ensures r.authCalled && authError.Some? ==> r.error == Some(ErrorText(authError.value, PasswordFallbackMessage))
  {
    match CheckNewPassword(f)
    case Some(message) => PasswordResult(f, false, Some(message), false)
    case None =>
      match authError
      case Some(message) => PasswordResult(f, false, Some(ErrorText(message, PasswordFallbackMessage)), true)
      case None => PasswordResult(BlankPassword, true, None, true)
  }

  /** A password change that does not succeed always shows a non-empty
      error, whether or not the auth error carried a message. */
  lemma PasswordErrorNeverBlank(f: PasswordForm, authError: Option<string>)
    ensures var r := UpdatePassword(f, authError);
            !r.success <==> r.error.Some? && r.error.value != ""
  {
  }
}
