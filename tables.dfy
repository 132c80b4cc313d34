/**
 * Generic operations on a table held as a sequence of rows in id order: the
 * ORM's `filter_by(...)` and list comprehensions with an `if` (Filter), the
 * first row that matches (`.first()`, or `[...][0]` guarded by `except`), and
 * `order_by(... .desc())` over rows kept in ascending id order (Reverse).
 */
module Tables {
  import opened Wrappers

  /** The rows that satisfy `p`, in table order. */
  function Filter<T>(rows: seq<T>, p: T -> bool): (r: seq<T>)
    ensures |r| <= |rows|
  {
    if rows == [] then []
    else if p(rows[0]) then [rows[0]] + Filter(rows[1..], p)
    else Filter(rows[1..], p)
  }

  /** The position of the first row that satisfies `p`, if any. */
  function FindFirst<T>(rows: seq<T>, p: T -> bool): (r: Option<nat>)
    ensures r.Some? ==> r.value < |rows| && p(rows[r.value]) &&
                        forall i :: 0 <= i < r.value ==> !p(rows[i])
    ensures r.None? <==> forall i :: 0 <= i < |rows| ==> !p(rows[i])
  {
    if rows == [] then None
    else if p(rows[0]) then Some(0)
    else match FindFirst(rows[1..], p)
      case None => None
      case Some(i) => Some(i + 1)
  }

  /** The rows in the opposite order. */
  function Reverse<T(!new)>(rows: seq<T>): (r: seq<T>)
    ensures |r| == |rows|
    ensures forall i :: 0 <= i < |rows| ==> r[i] == rows[|rows| - 1 - i]
    ensures forall x :: x in r <==> x in rows
  {
    if rows == [] then [] else Reverse(rows[1..]) + [rows[0]]
  }

  /** Keys strictly increase along the table: row ids in insertion order. */
  ghost predicate StrictlyIncreasing<T>(rows: seq<T>, key: T -> int)
  {
    forall i, j :: 0 <= i < j < |rows| ==> key(rows[i]) < key(rows[j])
  }

  /** A row is in the filtered table exactly when it is in the table and passes. */
  lemma {:induction false} FilterMembers<T(!new)>(rows: seq<T>, p: T -> bool)
    ensures forall x :: x in Filter(rows, p) <==> x in rows && p(x)
  {
    if rows != [] {
      FilterMembers(rows[1..], p);
      assert rows == [rows[0]] + rows[1..];
    }
  }

  /** Filtering a concatenation filters each part. */
  lemma {:induction false} FilterAppend<T>(a: seq<T>, b: seq<T>, p: T -> bool)
    ensures Filter(a + b, p) == Filter(a, p) + Filter(b, p)
  {
    if a == [] {
      assert a + b == b;
    } else {
      assert (a + b)[1..] == a[1..] + b;
      FilterAppend(a[1..], b, p);
    }
  }

  /** Filtering splits around any one row. */
  lemma {:induction false} FilterAround<T>(rows: seq<T>, i: nat, p: T -> bool)
    requires i < |rows|
    ensures Filter(rows, p) ==
            Filter(rows[..i], p) + (if p(rows[i]) then [rows[i]] else []) + Filter(rows[i + 1..], p)
  {
    assert rows == rows[..i] + [rows[i]] + rows[i + 1..];
    FilterAppend(rows[..i] + [rows[i]], rows[i + 1..], p);
    FilterAppend(rows[..i], [rows[i]], p);
    assert [rows[i]][1..] == [];
  }

  /** A filter that every row passes keeps the table as it is. */
  lemma {:induction false} FilterAll<T>(rows: seq<T>, p: T -> bool)
    requires forall i :: 0 <= i < |rows| ==> p(rows[i])
    ensures Filter(rows, p) == rows
  {
    if rows != [] {
      FilterAll(rows[1..], p);
    }
  }

  /** A filter that no row passes leaves nothing. */
  lemma {:induction false} FilterNone<T>(rows: seq<T>, p: T -> bool)
    requires forall i :: 0 <= i < |rows| ==> !p(rows[i])
    ensures Filter(rows, p) == []
  {
    if rows != [] {
      FilterNone(rows[1..], p);
    }
  }

  /** Filtering by `p` and then by a stronger `q` is filtering by `q`. */
  lemma {:induction false} FilterFilter<T>(rows: seq<T>, p: T -> bool, q: T -> bool)
    requires forall i :: 0 <= i < |rows| && q(rows[i]) ==> p(rows[i])
    ensures Filter(Filter(rows, p), q) == Filter(rows, q)
  {
    if rows != [] {
      FilterFilter(rows[1..], p, q);
    }
  }

  /**
   * Replacing one row changes the number of rows that pass a filter by what
   * the old and the new row contribute.
   */
  lemma FilterUpdate<T>(rows: seq<T>, k: nat, x: T, p: T -> bool)
    requires k < |rows|
    ensures |Filter(rows[k := x], p)| ==
            |Filter(rows, p)| - (if p(rows[k]) then 1 else 0) + (if p(x) then 1 else 0)
  {
    var pre, post := rows[..k], rows[k + 1..];
    assert rows == pre + [rows[k]] + post;
    assert rows[k := x] == pre + [x] + post;
    FilterAppend(pre + [rows[k]], post, p);
    FilterAppend(pre, [rows[k]], p);
    FilterAppend(pre + [x], post, p);
    FilterAppend(pre, [x], p);
  }

  /**
   * The first row of a filter is the row at the first matching position:
   * `[i for i in rows if p(i)][0]` selects what FindFirst finds.
   */
  lemma {:induction false} FilterHeadIsFindFirst<T>(rows: seq<T>, p: T -> bool)
    ensures Filter(rows, p) == [] <==> FindFirst(rows, p).None?
    ensures FindFirst(rows, p).Some? ==> Filter(rows, p)[0] == rows[FindFirst(rows, p).value]
  {
    if rows != [] && !p(rows[0]) {
      FilterHeadIsFindFirst(rows[1..], p);
    }
  }

  /** Filtering keeps keys strictly increasing. */
  lemma {:induction false} FilterKeepsIncreasing<T(!new)>(rows: seq<T>, p: T -> bool, key: T -> int)
    ensures StrictlyIncreasing(rows, key) ==> StrictlyIncreasing(Filter(rows, p), key)
  {
    if StrictlyIncreasing(rows, key) && rows != [] {
      var rest := rows[1..];
      assert StrictlyIncreasing(rest, key);
      FilterKeepsIncreasing(rest, p, key);
      if p(rows[0]) {
        var f := Filter(rest, p);
        FilterMembers(rest, p);
        forall j | 0 <= j < |f| ensures key(rows[0]) < key(f[j]) {
          assert f[j] in rest;
          var m :| 0 <= m < |rest| && rest[m] == f[j];
          assert rows[m + 1] == f[j];
        }
        assert Filter(rows, p) == [rows[0]] + f;
      }
    }
  }
}
