/** The user card shared by the sidebar and the profile page: the display
    name (`user?.full_name || "User"`) and the role badge. */
module Badges {
  import opened Wrappers
  import opened Schema
  import opened Text

  /** `user?.full_name || "User"`. */
  function DisplayName(user: Option<User>): (r: string)
    ensures r != ""
    ensures user.Some? && user.value.fullName.Some? && user.value.fullName.value != "" ==> r == user.value.fullName.value
    ensures user.None? || user.value.fullName.None? || user.value.fullName.value == "" ==> r == "User"
  {
    if user.Some? && user.value.fullName.Some? && user.value.fullName.value != "" then user.value.fullName.value
    else "User"
  }

  /** The role badge: the role's text with its first letter upper-cased, or
      "Role" before the user is loaded. */
  function RoleBadge(user: Option<User>): (r: string)
    ensures user.None? ==> r == "Role"
    ensures user.Some? ==> |r| == |RoleName(user.value.role)| && Lower(r) == RoleName(user.value.role)
    ensures user.Some? ==> r[0] == UpperChar(RoleName(user.value.role)[0])
  {
    match user
    case None => "Role"
    case Some(u) =>
      var name := RoleName(u.role);
      [UpperChar(name[0])] + name[1..]
  }

  /** Different roles get different badges. */
  lemma RoleBadgeDistinguishesRoles(u: User, v: User)
    requires RoleBadge(Some(u)) == RoleBadge(Some(v))
    ensures u.role == v.role
  {
    RoleRoundTrip(u.role);
    RoleRoundTrip(v.role);
  }
}
