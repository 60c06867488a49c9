/** The count line above each searchable listing:
    `{n} {noun}{n !== 1 ? "s" : ""} found`. */
module Labels {
  import opened Wrappers
  import opened Decimal

  /** The line reads back as the count, and says "s found" exactly when the
      count is not one (for a noun that does not itself end in "s"). */
  function Found(n: nat, noun: string): (r: string)
    requires noun != [] && noun[|noun| - 1] != 's'
    ensures ParseNat(r) == Some(n)
    ensures |r| >= 8 + |noun|
    ensures r[|r| - 7..] == "s found" <==> n != 1
  {
    var word := if n != 1 then noun + "s" else noun;
    var tail := " " + word + " found";
    assert tail[0] == ' ';
    ParseNatLabel(n, tail);
    SuffixOf(NatToString(n), word);
    NatToString(n) + tail
  }

  /** `digits + " " + word + " found"` ends in "s found" exactly when `word` ends in "s". */
  lemma SuffixOf(digits: string, word: string)
    requires word != []
    ensures var r := digits + (" " + word + " found");
            |r| >= 7 && (r[|r| - 7..] == "s found" <==> word[|word| - 1] == 's')
  {
    var r := digits + (" " + word + " found");
    var last := [word[|word| - 1]] + " found";
    assert r == (digits + " " + word[..|word| - 1]) + last;
    assert r[|r| - 7..] == last;
    assert last[0] == word[|word| - 1];
  }
}
