/** String helpers behind the search boxes and avatar initials: ASCII case
    mapping (`toLowerCase`/`toUpperCase`), `String.prototype.includes`, and
    `split(" ")` with its inverse `join(" ")`. */
module Text {

  function LowerChar(c: char): char {
    if 'A' <= c <= 'Z' then (c as int + 32) as char else c
  }

  function UpperChar(c: char): char {
    if 'a' <= c <= 'z' then (c as int - 32) as char else c
  }

  /** `s.toLowerCase()`, restricted to ASCII letters. */
  function Lower(s: string): (r: string)
    ensures |r| == |s|
    ensures forall i :: 0 <= i < |s| ==> r[i] == LowerChar(s[i])
  {
    seq(|s|, i requires 0 <= i < |s| => LowerChar(s[i]))
  }

  /** `s.toUpperCase()`, restricted to ASCII letters. */
  function Upper(s: string): (r: string)
    ensures |r| == |s|
    ensures forall i :: 0 <= i < |s| ==> r[i] == UpperChar(s[i])
  {
    seq(|s|, i requires 0 <= i < |s| => UpperChar(s[i]))
  }

  /** `needle` occurs in `hay` at position `i`. */
  predicate OccursAt(hay: string, needle: string, i: int) {
    0 <= i && i + |needle| <= |hay| && hay[i..i + |needle|] == needle
  }

  /** `hay.includes(needle)`: tries each start position from the left. */
  predicate Includes(hay: string, needle: string)
    decreases |hay|
  {
    || (|needle| <= |hay| && hay[..|needle|] == needle)
    || (hay != [] && Includes(hay[1..], needle))
  }

  lemma OccursShift(hay: string, needle: string, i: int)
    requires hay != [] && 0 <= i
    ensures OccursAt(hay[1..], needle, i) <==> OccursAt(hay, needle, i + 1)
  {
    if i + |needle| <= |hay| - 1 {
      assert hay[1..][i..i + |needle|] == hay[i + 1..i + 1 + |needle|];
    }
  }

  /** The left-to-right scan finds `needle` iff it occurs somewhere in `hay`. */
  lemma {:induction false} IncludesIff(hay: string, needle: string)
    ensures Includes(hay, needle) <==> exists i :: OccursAt(hay, needle, i)
    decreases |hay|
  {
    if |needle| <= |hay| && hay[..|needle|] == needle {
      assert OccursAt(hay, needle, 0);
    } else if hay == [] {
      assert forall i :: !OccursAt(hay, needle, i);
    } else {
      IncludesIff(hay[1..], needle);
      assert !OccursAt(hay, needle, 0);
      if Includes(hay[1..], needle) {
        var i :| OccursAt(hay[1..], needle, i);
        OccursShift(hay, needle, i);
      } else if exists i :: OccursAt(hay, needle, i) {
        var i :| OccursAt(hay, needle, i);
        OccursShift(hay, needle, i - 1);
        assert false;
      }
    }
  }

  /** The search predicate every page uses:
      `field.toLowerCase().includes(query.toLowerCase())`. */
  predicate Matches(field: string, query: string) {
    Includes(Lower(field), Lower(query))
  }

  /** An empty search query matches every field. */
  lemma EmptyQueryMatches(field: string)
    ensures Matches(field, "")
  {
    assert Lower(field)[..0] == Lower("");
  }

  /** `s.split(" ")`: the maximal space-free pieces between single spaces,
      including empty pieces for leading, trailing or repeated spaces. */
  function Split(s: string): (r: seq<string>)
    ensures |r| >= 1
    ensures forall k :: 0 <= k < |r| ==> ' ' !in r[k]
    decreases |s|
  {
    if s == [] then [[]]
    else
      var rest := Split(s[1..]);
      if s[0] == ' ' then [[]] + rest
      else [[s[0]] + rest[0]] + rest[1..]
  }

  /** `ws.join(" ")`. */
  function Join(ws: seq<string>): string
    requires |ws| >= 1
  {
    if |ws| == 1 then ws[0] else ws[0] + " " + Join(ws[1..])
  }

  /** Splitting on spaces loses nothing: joining the pieces restores the string. */
  lemma {:induction false} JoinSplit(s: string)
    ensures Join(Split(s)) == s
  {
    if s != [] {
      var rest := Split(s[1..]);
      JoinSplit(s[1..]);
      if s[0] == ' ' {
        assert Split(s) == [[]] + rest;
        assert Split(s)[1..] == rest;
      } else {
        var ws := Split(s);
        assert ws == [[s[0]] + rest[0]] + rest[1..];
        if |rest| == 1 {
          assert Join(ws) == [s[0]] + rest[0];
        } else {
          assert ws[1..] == rest[1..];
          assert Join(rest) == rest[0] + " " + Join(rest[1..]);
        }
        assert s == [s[0]] + s[1..];
      }
    }
  }

  /** The first character of each piece, skipping empty pieces
      (`.map((n) => n[0]).join("")`: `""[0]` is `undefined`, which joins as ""). */
  function Heads(ws: seq<string>): string {
    if ws == [] then []
    else (if ws[0] == [] then [] else [ws[0][0]]) + Heads(ws[1..])
  }

  /** The characters of `s` that begin a word: non-spaces at the start or
      after a space (`afterSpace` says whether the previous character was one). */
  function WordStarts(s: string, afterSpace: bool): string {
    if s == [] then []
    else (if afterSpace && s[0] != ' ' then [s[0]] else []) + WordStarts(s[1..], s[0] == ' ')
  }

  /** The heads of the split pieces are exactly the word-initial characters. */
  lemma {:induction false} HeadsOfSplit(s: string)
    ensures Heads(Split(s)) == WordStarts(s, true)
    ensures Heads(Split(s)[1..]) == WordStarts(s, false)
  {
    if s != [] {
      var rest := Split(s[1..]);
      HeadsOfSplit(s[1..]);
      var ws := Split(s);
      if s[0] == ' ' {
        assert ws == [[]] + rest;
        assert ws[1..] == rest;
      } else {
        assert ws == [[s[0]] + rest[0]] + rest[1..];
        assert ws[1..] == rest[1..];
        assert Heads(ws) == [s[0]] + Heads(rest[1..]);
      }
    }
  }

  /** A string of spaces only has no word-initial characters. */
  lemma {:induction false} WordStartsOfSpaces(s: string, afterSpace: bool)
    requires forall i :: 0 <= i < |s| ==> s[i] == ' '
    ensures WordStarts(s, afterSpace) == []
  {
    if s != [] {
      WordStartsOfSpaces(s[1..], true);
    }
  }
}
