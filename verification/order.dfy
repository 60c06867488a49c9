/** The comparators of the ORDER BY clauses the pages use, each proved to be a
    total preorder so that `Seqs.SortBy` applies. Text is compared by character
    code (PostgreSQL's "C" collation); DESC on a nullable column puts NULLs
    first, as PostgreSQL does by default. */
module Order {
  import opened Wrappers
  import opened Schema
  import opened Seqs

  /** Character-code lexicographic order on text. */
  predicate LexLe(a: string, b: string) {
    if a == [] then true
    else if b == [] then false
    else if a[0] != b[0] then a[0] < b[0]
    else LexLe(a[1..], b[1..])
  }

  lemma {:induction false} LexTotal(a: string, b: string)
    ensures LexLe(a, b) || LexLe(b, a)
  {
    if a != [] && b != [] && a[0] == b[0] {
      LexTotal(a[1..], b[1..]);
    }
  }

  lemma {:induction false} LexTransitive(a: string, b: string, c: string)
    requires LexLe(a, b) && LexLe(b, c)
    ensures LexLe(a, c)
  {
    if a != [] && b != [] && c != [] && a[0] == b[0] && b[0] == c[0] {
      LexTransitive(a[1..], b[1..], c[1..]);
    }
  }

  /** ORDER BY `key` ascending, for a text column. */
  function ByText<T>(key: T -> string): (T, T) -> bool {
    (x: T, y: T) => LexLe(key(x), key(y))
  }

  lemma ByTextIsTotalPreorder<T(!new)>(key: T -> string)
    ensures TotalPreorder(ByText(key))
  {
    forall a: T, b: T
      ensures ByText(key)(a, b) || ByText(key)(b, a)
    {
      LexTotal(key(a), key(b));
    }
    forall a: T, b: T, c: T | ByText(key)(a, b) && ByText(key)(b, c)
      ensures ByText(key)(a, c)
    {
      LexTransitive(key(a), key(b), key(c));
    }
  }

  /** ORDER BY `key` DESC, for a NOT NULL timestamp column. */
  function NewestFirst<T>(key: T -> Time): (T, T) -> bool {
    (x: T, y: T) => key(x) >= key(y)
  }

  lemma NewestFirstIsTotalPreorder<T(!new)>(key: T -> Time)
    ensures TotalPreorder(NewestFirst(key))
  {
  }

  /** ORDER BY `key` DESC for a nullable timestamp: NULLs first, then newest first. */
  function NullsFirstNewest<T>(key: T -> Option<Time>): (T, T) -> bool {
    (x: T, y: T) => key(x).None? || (key(y).Some? && key(x).value >= key(y).value)
  }

  lemma NullsFirstNewestIsTotalPreorder<T(!new)>(key: T -> Option<Time>)
    ensures TotalPreorder(NullsFirstNewest(key))
  {
  }

  /** In a list sorted NULLs-first, every row without a key comes before every row with one. */
  lemma NullsComeFirst<T>(xs: seq<T>, key: T -> Option<Time>)
    requires SortedBy(xs, NullsFirstNewest(key))
    ensures forall i, j :: 0 <= i < j < |xs| && key(xs[j]).None? ==> key(xs[i]).None?
  {
  }
}
