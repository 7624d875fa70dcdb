/** The status filter of the read-only view and the options of its selector. */
module StatusFilter {
  import opened Records

  /** The selector value that switches the filter off. */
  const All: string := "All"

  /** `df[df["status"] == status]`: the rows whose status equals `status`, in their order. */
  function WithStatus(rows: seq<Row>, status: string): (r: seq<Row>)
    ensures |r| <= |rows|
  {
    if rows == [] then []
    else (if rows[0].fields.status == status then [rows[0]] else []) + WithStatus(rows[1..], status)
  }

  /**
   * Every kept row has the selected status, and each row with that status
   * is kept as many times as it occurs.
   */
  lemma {:induction false} WithStatusKeepsMatches(rows: seq<Row>, status: string)
    ensures forall row :: row in WithStatus(rows, status) ==> row.fields.status == status
    ensures forall row :: multiset(WithStatus(rows, status))[row] ==
                            if row.fields.status == status then multiset(rows)[row] else 0
  {
    if rows != [] {
      WithStatusKeepsMatches(rows[1..], status);
      assert rows == [rows[0]] + rows[1..];
    }
  }

  /**
   * Filtering commutes with concatenation: a row before another in the
   * input stays before it in the output. With the one-row case this fixes
   * the filter's output completely.
   */
  lemma {:induction false} WithStatusAppend(a: seq<Row>, b: seq<Row>, status: string)
    ensures WithStatus(a + b, status) == WithStatus(a, status) + WithStatus(b, status)
  {
    if a == [] {
      assert a + b == b;
    } else {
      var head := if a[0].fields.status == status then [a[0]] else [];
      assert WithStatus(a + b, status) == head + WithStatus(a[1..] + b, status) by {
        assert (a + b)[1..] == a[1..] + b;
      }
      assert WithStatus(a, status) == head + WithStatus(a[1..], status);
      WithStatusAppend(a[1..], b, status);
      assert head + (WithStatus(a[1..], status) + WithStatus(b, status))
          == (head + WithStatus(a[1..], status)) + WithStatus(b, status);
    }
  }

  /** The rows the view shows for a selector value (app.py lines 105-106). */
  function FilterByStatus(rows: seq<Row>, selector: string): (r: seq<Row>)
    ensures selector == All ==> r == rows
    ensures selector != All ==> forall row :: row in r <==> row in rows && row.fields.status == selector
    ensures selector != All ==> multiset(r) <= multiset(rows)
  {
    WithStatusKeepsMatches(rows, selector);
    if selector == All then rows else WithStatus(rows, selector)
  }

  /** `df["status"]`: the status column, row by row; it holds exactly the statuses some row has. */
  function Statuses(rows: seq<Row>): (r: seq<string>)
    ensures forall x :: x in r <==> exists row :: row in rows && row.fields.status == x
  {
    var r := seq(|rows|, i requires 0 <= i < |rows| => rows[i].fields.status);
    forall x | x in r ensures exists row :: row in rows && row.fields.status == x {
      var i :| 0 <= i < |r| && r[i] == x;
      assert rows[i] in rows;
    }
    forall row | row in rows ensures row.fields.status in r {
      var i :| 0 <= i < |rows| && rows[i] == row;
      assert r[i] == row.fields.status;
    }
    r
  }

  ghost predicate NoDuplicates(s: seq<string>)
  {
    forall i, j :: 0 <= i < j < |s| ==> s[i] != s[j]
  }

  /** The position of the first occurrence of `x` in `s`. */
  function FirstIndex(s: seq<string>, x: string): (i: nat)
    requires x in s
    ensures i < |s| && s[i] == x
    ensures forall j :: 0 <= j < i ==> s[j] != x
  {
    if s[0] == x then 0 else 1 + FirstIndex(s[1..], x)
  }

  /** A value's first occurrence does not move when the sequence is cut after it. */
  lemma FirstIndexPrefix(s: seq<string>, n: nat, x: string)
    requires n <= |s| && x in s[..n]
    ensures x in s && FirstIndex(s, x) == FirstIndex(s[..n], x)
  {
    var i, k := FirstIndex(s, x), FirstIndex(s[..n], x);
    assert s[k] == x;
    assert i <= k;
  }

  /**
   * `Series.unique()`: each value of `s` once, in the order of its first
   * occurrence.
   */
  function Distinct(s: seq<string>): (r: seq<string>)
    ensures forall x :: x in r <==> x in s
    ensures NoDuplicates(r)
    ensures forall i, j :: 0 <= i < j < |r| ==> FirstIndex(s, r[i]) < FirstIndex(s, r[j])
  {
    if s == [] then []
    else
      var init, last := s[..|s| - 1], s[|s| - 1];
      var d := Distinct(init);
      assert s == init + [last];
      forall x | x in d ensures FirstIndex(s, x) == FirstIndex(init, x) {
        FirstIndexPrefix(s, |s| - 1, x);
      }
      if last in d then d
      else
        assert FirstIndex(s, last) == |s| - 1;
        d + [last]
  }

  /** The selector's options: "All", then each status once, in order of first appearance. */
  function FilterOptions(rows: seq<Row>): (options: seq<string>)
    ensures |options| >= 1 && options[0] == All
    ensures forall x :: x in options[1..] <==> x in Statuses(rows)
    ensures NoDuplicates(options[1..])
    ensures forall i, j :: 0 <= i < j < |options| - 1 ==>
              FirstIndex(Statuses(rows), options[1..][i]) < FirstIndex(Statuses(rows), options[1..][j])
  {
    var statuses := Statuses(rows);
    var d := Distinct(statuses);
    assert ([All] + d)[1..] == d;
    [All] + d
  }

  /** Every option the selector offers shows at least one row. */
  lemma OptionSelectsSomeRow(rows: seq<Row>, option: string)
    requires option in FilterOptions(rows)
    ensures |FilterByStatus(rows, option)| > 0 || (option == All && rows == [])
  {
    if option != All {
      var options := FilterOptions(rows);
      var k :| 0 <= k < |options| && options[k] == option;
      assert option in options[1..];
      var row :| row in rows && row.fields.status == option;
      assert row in FilterByStatus(rows, option);
    }
  }
}
