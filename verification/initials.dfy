/** The avatar fallback text, defined identically in the dashboard header and
    on the profile page: the upper-cased first letters of the space-separated
    words of the full name, at most two of them, or "U" when there is no name. */
module Initials {
  import opened Wrappers
  import opened Seqs
  import opened Text

  /** `getInitials(name)`: `name.split(" ").map((n) => n[0]).join("").toUpperCase().substring(0, 2)`,
      with "U" for a null or empty name. */
  function GetInitials(name: Option<string>): (r: string)
    ensures |r| <= 2
    ensures name.None? || name == Some("") ==> r == "U"
    ensures name.Some? && name.value != "" ==> r == Upper(Take(WordStarts(name.value, true), 2))
  {
    if name.None? || name.value == "" then "U"
    else
      HeadsOfSplit(name.value);
      UpperTake(Heads(Split(name.value)), 2);
      Take(Upper(Heads(Split(name.value))), 2)
  }

  /** Upper-casing and truncating commute, since upper-casing keeps the length. */
  lemma UpperTake(s: string, n: nat)
    ensures Take(Upper(s), n) == Upper(Take(s, n))
  {
  }

  /** A name made only of spaces has no initials at all (not "U"). */
  lemma AllSpacesHasNoInitials(name: string)
    requires name != ""
    requires forall i :: 0 <= i < |name| ==> name[i] == ' '
    ensures GetInitials(Some(name)) == ""
  {
    WordStartsOfSpaces(name, true);
  }

  /** Position `i` of `s` begins a word: a non-space at the start (when
      `afterSpace`) or right after a space. */
  predicate StartsWordAt(s: string, afterSpace: bool, i: int) {
    0 <= i < |s| && s[i] != ' ' && (if i == 0 then afterSpace else s[i - 1] == ' ')
  }

  /** Each initial is the upper-cased first character of a word of the name. */
  lemma InitialsStartWords(name: string, k: nat)
    requires name != ""
    requires k < |GetInitials(Some(name))|
    ensures exists i :: StartsWordAt(name, true, i) && GetInitials(Some(name))[k] == UpperChar(name[i])
  {
    var starts := WordStarts(name, true);
    assert GetInitials(Some(name))[k] == UpperChar(starts[k]);
    WordStartsAreWordStarts(name, true, k);
  }

  lemma {:induction false} WordStartsAreWordStarts(s: string, afterSpace: bool, k: nat)
    requires k < |WordStarts(s, afterSpace)|
    ensures exists i :: StartsWordAt(s, afterSpace, i) && WordStarts(s, afterSpace)[k] == s[i]
  {
    var head: string := if afterSpace && s[0] != ' ' then [s[0]] else [];
    var rest := WordStarts(s[1..], s[0] == ' ');
    assert WordStarts(s, afterSpace) == head + rest;
    if k < |head| {
      assert StartsWordAt(s, afterSpace, 0) && WordStarts(s, afterSpace)[k] == s[0];
    } else {
      WordStartsAreWordStarts(s[1..], s[0] == ' ', k - |head|);
      var j :| StartsWordAt(s[1..], s[0] == ' ', j) && rest[k - |head|] == s[1..][j];
      assert s[j + 1] == s[1..][j];
      assert StartsWordAt(s, afterSpace, j + 1) && WordStarts(s, afterSpace)[k] == s[j + 1];
    }
  }
}
