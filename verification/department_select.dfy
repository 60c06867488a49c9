/** The department pickers of the users page (add and edit dialogs) and the
    profile page. Each is a Select whose first item is labelled "None" and
    has the value "none", followed by one item per department whose value is
    the department's name; the handlers store the picked value with
    `value || null`. */
module DepartmentSelect {
  import opened Wrappers

  /** The value of the picker's "None" item. */
  const NoneItem: string := "none"

  /** `value || null` as the handlers write it: only the empty text becomes
      NULL, so picking "None" stores the text "none". */
  function AsWritten(value: string): (r: Option<string>)
    ensures r.None? <==> value == ""
    ensures r.Some? ==> r.value == value
  {
    if value == "" then None else Some(value)
  }

  /** Picking "None" stores a department literally named "none" instead of NULL. */
  lemma NoneItemStoredAsText()
    ensures AsWritten(NoneItem) == Some("none")
  {
  }

  /** The department the picker means: NULL for "None" or for no choice, the
      picked department name otherwise. */
  function Picked(value: string): (r: Option<string>)
    ensures r.None? <==> value == "" || value == NoneItem
    ensures r.Some? ==> r.value == value
    ensures r != Some(NoneItem)
  {
    if value == "" || value == NoneItem then None else Some(value)
  }

  /** The two readings differ only on the "None" item. */
  lemma PickedDiffersOnlyOnNone(value: string)
    ensures Picked(value) == AsWritten(value) <==> value != NoneItem
  {
  }

  /** `department || null` on an optional department: an empty text becomes NULL. */
  function OrNull(d: Option<string>): (r: Option<string>)
    ensures r.None? <==> d.None? || d == Some("")
    ensures r.Some? ==> r == d
  {
    if d == Some("") then None else d
  }
}
