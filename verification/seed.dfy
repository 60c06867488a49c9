/** The sample data step of the setup route: four departments inserted with
    `ON CONFLICT (name) DO NOTHING`, so the step can be re-run safely. */
module Seed {
  import opened Wrappers
  import opened Schema
  import opened Store

  /** The (name, description) pairs the setup route inserts. */
  const SampleDepartments: seq<(string, string)> := [
    ("Computer Science", "Department of Computer Science and Engineering"),
    ("Mathematics", "Department of Mathematics and Statistics"),
    ("Physics", "Department of Physics and Astronomy"),
    ("Business", "School of Business and Management")
  ]

  /** `n` is the name of one of the seeded pairs. */
  predicate Listed(rows: seq<(string, string)>, n: string) {
    exists k :: 0 <= k < |rows| && rows[k].0 == n
  }

  /** One row of the INSERT ... ON CONFLICT (name) DO NOTHING. */
  function InsertIfAbsent(s: Store, name: string, description: string, now: Time): (r: Store)
    requires SerialsAhead(s)
    ensures SerialsAhead(r)
    ensures DepartmentNameTaken(r, name)
    ensures DepartmentNameTaken(s, name) ==> r == s
    ensures forall n :: DepartmentNameTaken(r, n) <==> DepartmentNameTaken(s, n) || n == name
    ensures forall k :: k in s.departments ==> k in r.departments && r.departments[k] == s.departments[k]
    ensures r == s.(departments := r.departments, serials := r.serials)
  {
    match InsertDepartment(s, name, Some(description), now)
    case Ok(t) =>
      var id := t.serials.department;
      assert t.departments[id].name == name;
      assert forall n :: DepartmentNameTaken(t, n) ==> DepartmentNameTaken(s, n) || n == name by {
        forall n | DepartmentNameTaken(t, n)
          ensures DepartmentNameTaken(s, n) || n == name
        {
          var k :| k in t.departments && t.departments[k].name == n;
          if k != id {
            assert k in s.departments && s.departments[k] == t.departments[k];
          }
        }
      }
      t
    case Err(_) => s
  }

  /** Runs the seed INSERT for every pair of `rows` in order. */
  function SeedDepartments(s: Store, rows: seq<(string, string)>, now: Time): (r: Store)
    requires SerialsAhead(s)
    ensures SerialsAhead(r)
    ensures forall k :: 0 <= k < |rows| ==> DepartmentNameTaken(r, rows[k].0)
    ensures forall n :: DepartmentNameTaken(r, n) <==> DepartmentNameTaken(s, n) || Listed(rows, n)
    ensures forall k :: k in s.departments ==> k in r.departments && r.departments[k] == s.departments[k]
    ensures r == s.(departments := r.departments, serials := r.serials)
    decreases |rows|
  {
    if rows == [] then s
    else
      var s' := InsertIfAbsent(s, rows[0].0, rows[0].1, now);
      var r := SeedDepartments(s', rows[1..], now);
      assert forall k :: 1 <= k < |rows| ==> rows[k] == rows[1..][k - 1];
      assert forall n :: Listed(rows, n) <==> n == rows[0].0 || Listed(rows[1..], n) by {
        forall n | Listed(rows, n)
          ensures n == rows[0].0 || Listed(rows[1..], n)
        {
          var k :| 0 <= k < |rows| && rows[k].0 == n;
          if k > 0 {
            assert rows[1..][k - 1].0 == n;
          }
        }
        forall n | Listed(rows[1..], n)
          ensures Listed(rows, n)
        {
          var k :| 0 <= k < |rows[1..]| && rows[1..][k].0 == n;
          assert rows[k + 1].0 == n;
        }
        assert Listed(rows, rows[0].0) by {
          assert rows[0].0 == rows[0].0;
        }
      }
      r
  }

  /** When every seeded name already exists, the seed changes nothing. */
  lemma {:induction false} SeedWhenPresent(s: Store, rows: seq<(string, string)>, now: Time)
    requires SerialsAhead(s)
    requires forall k :: 0 <= k < |rows| ==> DepartmentNameTaken(s, rows[k].0)
    ensures SeedDepartments(s, rows, now) == s
    decreases |rows|
  {
    if rows != [] {
      assert InsertIfAbsent(s, rows[0].0, rows[0].1, now) == s;
      assert forall k :: 0 <= k < |rows[1..]| ==> rows[1..][k] == rows[k + 1];
      SeedWhenPresent(s, rows[1..], now);
    }
  }

  /** Re-running the seed is idempotent: the second run finds every name and
      leaves the store exactly as the first run left it. */
  lemma SeedIdempotent(s: Store, now: Time, later: Time)
    requires SerialsAhead(s)
    ensures SeedDepartments(SeedDepartments(s, SampleDepartments, now), SampleDepartments, later)
         == SeedDepartments(s, SampleDepartments, now)
  {
    SeedWhenPresent(SeedDepartments(s, SampleDepartments, now), SampleDepartments, later);
  }

  /** Seeding keeps the store consistent. */
  lemma {:induction false} SeedWellFormed(s: Store, rows: seq<(string, string)>, now: Time)
    requires WellFormed(s)
    ensures WellFormed(SeedDepartments(s, rows, now))
    decreases |rows|
  {
    if rows != [] {
      var s' := InsertIfAbsent(s, rows[0].0, rows[0].1, now);
      if InsertDepartment(s, rows[0].0, Some(rows[0].1), now).Ok? {
        InsertDepartmentWellFormed(s, rows[0].0, Some(rows[0].1), now);
      }
      SeedWellFormed(s', rows[1..], now);
    }
  }
}
