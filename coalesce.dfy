/**
 * Coalescing: `groupby(key).apply(merge_rows)` collapses the rows that share
 * an identifier into one row, column by column taking the largest non-missing
 * text value (merge.py:36-47).
 */
module Coalescing {
  import opened Wrappers
  import opened LexOrder
  import opened Tables

  /** `group[c].dropna()`: the non-missing values of column `c`, in row order. */
  function PresentValues(group: seq<Row>, c: Column): (vs: seq<string>)
    ensures forall v :: v in vs <==> exists x :: x in group && Lookup(x, c) == Some(v)
  {
    if group == [] then []
    else
      var rest := PresentValues(group[1..], c);
      assert forall x :: x in group <==> x == group[0] || x in group[1..];
      match Lookup(group[0], c)
      case None => rest
      case Some(v) => [v] + rest
  }

  /** Python's `max` over a non-empty list of strings. */
  function MaxOf(vals: seq<string>): (m: string)
    requires |vals| > 0
    ensures m in vals
    ensures forall v :: v in vals ==> LexLe(v, m)
  {
    if |vals| == 1 then vals[0]
    else
      var rest := MaxOf(vals[1..]);
      var m := LexMax(vals[0], rest);
      assert forall v :: v in vals[1..] ==> LexLe(v, m) by {
        forall v | v in vals[1..]
          ensures LexLe(v, m)
        {
          LexLeTransitive(v, rest, m);
        }
      }
      assert forall v :: v in vals ==> v == vals[0] || v in vals[1..];
      m
  }

  /**
   * `group[c].dropna().max()` if some value is present, else missing: the
   * coalesced value of one column (merge.py:42).
   */
  function MaxPresent(group: seq<Row>, c: Column): (r: Cell)
    ensures r.None? <==> forall x :: x in group ==> Lookup(x, c).None?
    ensures r.Some? ==> exists x :: x in group && Lookup(x, c) == r
    ensures forall x :: x in group && Lookup(x, c).Some? ==> r.Some? && LexLe(Lookup(x, c).value, r.value)
  {
    var vs := PresentValues(group, c);
    if |vs| == 0 then None else Some(MaxOf(vs))
  }

  /** `cell` is the largest element of `s`, and missing exactly when `s` is empty. */
  ghost predicate IsMaxOf(cell: Cell, s: set<string>)
  {
    && (cell.None? <==> s == {})
    && (cell.Some? ==> cell.value in s && forall v :: v in s ==> LexLe(v, cell.value))
  }

  /** A set has at most one largest element, so "the maximum" is well defined. */
  lemma IsMaxOfUnique(a: Cell, b: Cell, s: set<string>)
    requires IsMaxOf(a, s) && IsMaxOf(b, s)
    ensures a == b
  {
    if a.Some? {
      LexLeAntisymmetric(a.value, b.value);
    }
  }

  /** The coalesced value of column `c` in the group of identifier `k` is the maximum of that group's present values. */
  lemma MaxPresentOfGroup(rows: seq<Row>, key: Column, k: string, c: Column)
    ensures IsMaxOf(MaxPresent(Matching(rows, key, Some(k)), c), GroupValues(rows, key, k, c))
  {
    var g := Matching(rows, key, Some(k));
    var r := MaxPresent(g, c);
    var s := GroupValues(rows, key, k, c);
    if r.Some? {
      var x :| x in g && Lookup(x, c) == r;
      assert r.value in s;
    } else {
      assert s == {};
    }
  }

  /**
   * `merge_rows(group)`: a copy of the first row in which each non-identifier
   * column, taken in order, is overwritten by its coalesced value.
   */
  function MergedRow(group: seq<Row>, columns: seq<Column>, key: Column): Row
    requires |group| > 0
    decreases |columns|
  {
    if |columns| == 0 then group[0]
    else
      var n := |columns| - 1;
      var earlier := MergedRow(group, columns[..n], key);
      if columns[n] == key then earlier else earlier[columns[n] := MaxPresent(group, columns[n])]
  }

  /**
   * The merged row has the first row's columns plus every non-identifier column;
   * it keeps the first row's identifier, and each non-identifier column holds the
   * group's largest non-missing value in that column.
   */
  lemma {:induction false} MergedRowCells(group: seq<Row>, columns: seq<Column>, key: Column)
    requires |group| > 0
    ensures MergedRow(group, columns, key).Keys == group[0].Keys + (set c | c in columns && c != key)
    ensures Lookup(MergedRow(group, columns, key), key) == Lookup(group[0], key)
    ensures forall c :: c in columns && c != key ==> Lookup(MergedRow(group, columns, key), c) == MaxPresent(group, c)
    ensures forall c :: c !in columns && c != key ==> Lookup(MergedRow(group, columns, key), c) == Lookup(group[0], c)
  {
    if |columns| > 0 {
      var n := |columns| - 1;
      MergedRowCells(group, columns[..n], key);
      assert columns == columns[..n] + [columns[n]];
    }
  }

  /**
   * merge.py:36-43. The row starts as a copy of the group's first row; the loop
   * over the columns overwrites each one other than the identifier.
   */
  method MergeRows(group: seq<Row>, columns: seq<Column>, key: Column) returns (merged: Row)
    requires |group| > 0
    ensures merged == MergedRow(group, columns, key)
  {
    merged := group[0];
    assert merged == MergedRow(group, columns[..0], key);
    for i := 0 to |columns|
      invariant merged == MergedRow(group, columns[..i], key)
    {
      var col := columns[i];
      MergedRowStep(group, columns, key, i);
      if col != key {
        merged := merged[col := MaxPresent(group, col)];
      }
    }
    assert columns[..|columns|] == columns;
  }

  /** Merging over one more column sets that column to its maximum, unless it is the identifier. */
  lemma MergedRowStep(group: seq<Row>, columns: seq<Column>, key: Column, i: nat)
    requires |group| > 0 && i < |columns|
    ensures MergedRow(group, columns[..i + 1], key) ==
      if columns[i] == key then MergedRow(group, columns[..i], key)
      else MergedRow(group, columns[..i], key)[columns[i] := MaxPresent(group, columns[i])]
  {
    assert columns[..i + 1][..i] == columns[..i];
  }

  /** Inserts `k` into a strictly ascending list, keeping it strictly ascending and free of repeats. */
  function Insert(ks: seq<string>, k: string): (r: seq<string>)
    requires StrictlyAscending(ks)
    ensures StrictlyAscending(r)
    ensures forall v :: v in r <==> v in ks || v == k
  {
    if |ks| == 0 then [k]
    else if k == ks[0] then ks
    else if LexLess(k, ks[0]) then
      assert forall j :: 0 <= j < |ks| ==> LexLess(k, ks[j]) by {
        forall j | 0 <= j < |ks|
          ensures LexLess(k, ks[j])
        {
          if j > 0 {
            LexTransitive(k, ks[0], ks[j]);
          }
        }
      }
      [k] + ks
    else
      LexTotal(k, ks[0]);
      var rest := Insert(ks[1..], k);
      assert forall v :: v in rest ==> LexLess(ks[0], v) by {
        forall v | v in rest
          ensures LexLess(ks[0], v)
        {
          if v != k {
            var j :| 1 <= j < |ks| && ks[j] == v;
          }
        }
      }
      assert forall v :: v in ks <==> v == ks[0] || v in ks[1..];
      [ks[0]] + rest
  }

  /** The group keys of `groupby`, which sorts them: each present identifier once, in ascending text order. */
  function SortedKeys(rows: seq<Row>, key: Column): (ks: seq<string>)
    ensures StrictlyAscending(ks)
    ensures forall v :: v in ks <==> exists x :: x in rows && Lookup(x, key) == Some(v)
  {
    if rows == [] then []
    else
      var rest := SortedKeys(rows[1..], key);
      assert forall x :: x in rows <==> x == rows[0] || x in rows[1..];
      match Lookup(rows[0], key)
      case None => rest
      case Some(k) => Insert(rest, k)
  }

  /** `merge_rows` applied to the group of each key of `ks`, in the order of `ks`. */
  function GroupRows(rows: seq<Row>, key: Column, ks: seq<string>, columns: seq<Column>): (out: seq<Row>)
    requires forall v :: v in ks ==> exists x :: x in rows && Lookup(x, key) == Some(v)
    ensures |out| == |ks|
  {
    if ks == [] then []
    else
      var g := Matching(rows, key, Some(ks[0]));
      assert ks[0] in ks;
      GroupNonEmpty(rows, key, ks[0]);
      [MergedRow(g, columns, key)] + GroupRows(rows, key, ks[1..], columns)
  }

  /** The group of an identifier that some row carries is not empty. */
  lemma GroupNonEmpty(rows: seq<Row>, key: Column, k: string)
    requires exists x :: x in rows && Lookup(x, key) == Some(k)
    ensures |Matching(rows, key, Some(k))| > 0
  {
    var x :| x in rows && Lookup(x, key) == Some(k);
    assert x in Matching(rows, key, Some(k));
  }

  /** The `i`-th merged row is `merge_rows` of the group of the `i`-th key. */
  lemma {:induction false} GroupRowsAt(rows: seq<Row>, key: Column, ks: seq<string>, columns: seq<Column>, i: nat)
    requires forall v :: v in ks ==> exists x :: x in rows && Lookup(x, key) == Some(v)
    requires i < |ks|
    ensures |Matching(rows, key, Some(ks[i]))| > 0
    ensures GroupRows(rows, key, ks, columns)[i] == MergedRow(Matching(rows, key, Some(ks[i])), columns, key)
  {
    assert ks[i] in ks;
    GroupNonEmpty(rows, key, ks[i]);
    var head := MergedRow(Matching(rows, key, Some(ks[0])), columns, key);
    var tail := GroupRows(rows, key, ks[1..], columns);
    assert GroupRows(rows, key, ks, columns) == [head] + tail;
    if i > 0 {
      GroupRowsAt(rows, key, ks[1..], columns, i - 1);
      assert ks[1..][i - 1] == ks[i];
      assert ([head] + tail)[i] == tail[i - 1];
    }
  }

  /** Extending a prefix by one element. */
  lemma PrefixSnoc<T>(s: seq<T>, i: nat)
    requires i < |s|
    ensures s[..i + 1] == s[..i] + [s[i]]
  {
  }

  /**
   * `groupby(key, as_index=False).apply(merge_rows).reset_index(drop=True)`
   * (merge.py:46-47): one merged row per identifier, in ascending identifier
   * order; rows with a missing identifier are dropped.
   */
  function Coalesce(t: Table, key: Column): Table
  {
    Table(t.columns, GroupRows(t.rows, key, SortedKeys(t.rows, key), t.columns))
  }

  /**
   * The group-by-apply of merge.py:46 as a loop: `merge_rows` is called once per
   * group, in key order, and its results are stacked into the new table.
   */
  method GroupByApply(t: Table, key: Column) returns (out: Table)
    ensures out == Coalesce(t, key)
  {
    var ks := SortedKeys(t.rows, key);
    ghost var all := GroupRows(t.rows, key, ks, t.columns);
    var rows: seq<Row> := [];
    for i := 0 to |ks|
      invariant rows == all[..i]
    {
      var group := Matching(t.rows, key, Some(ks[i]));
      assert |group| > 0 && all[i] == MergedRow(group, t.columns, key) by {
        GroupRowsAt(t.rows, key, ks, t.columns, i);
      }
      var merged := MergeRows(group, t.columns, key);
      rows := rows + [merged];
      PrefixSnoc(all, i);
    }
    assert all[..|ks|] == all;
    out := Table(t.columns, rows);
  }

  /** Two strictly ascending lists with the same elements are the same list. */
  lemma {:induction false} AscendingUnique(a: seq<string>, b: seq<string>)
    requires StrictlyAscending(a) && StrictlyAscending(b)
    requires forall v :: v in a <==> v in b
    ensures a == b
  {
    assert |a| > 0 ==> a[0] in b;
    assert |b| > 0 ==> b[0] in a;
    if |a| > 0 && |b| > 0 {
      assert LexLe(a[0], b[0]) by {
        var i :| 0 <= i < |a| && a[i] == b[0];
        assert i == 0 || LexLess(a[0], a[i]);
      }
      assert LexLe(b[0], a[0]) by {
        var j :| 0 <= j < |b| && b[j] == a[0];
        assert j == 0 || LexLess(b[0], b[j]);
      }
      LexLeAntisymmetric(a[0], b[0]);
      LexIrreflexive(a[0]);
      forall v
        ensures v in a[1..] <==> v in b[1..]
      {
        if v in a[1..] {
          var m :| 1 <= m < |a| && a[m] == v;
          assert LexLess(a[0], v);
        }
        if v in b[1..] {
          var m :| 1 <= m < |b| && b[m] == v;
          assert LexLess(b[0], v);
        }
        assert v in a <==> v == a[0] || v in a[1..];
        assert v in b <==> v == b[0] || v in b[1..];
      }
      AscendingUnique(a[1..], b[1..]);
      assert a == [a[0]] + a[1..] && b == [b[0]] + b[1..];
    }
  }

  /** Row `i` of the coalesced table: its identifier is the `i`-th group key, and each other column holds the maximum of the group's values. */
  lemma CoalescedRow(t: Table, key: Column, i: nat)
    requires i < |SortedKeys(t.rows, key)|
    ensures |Coalesce(t, key).rows| == |SortedKeys(t.rows, key)|
    ensures Lookup(Coalesce(t, key).rows[i], key) == Some(SortedKeys(t.rows, key)[i])
    ensures forall c :: c in t.columns && c != key ==>
      IsMaxOf(Lookup(Coalesce(t, key).rows[i], c), GroupValues(t.rows, key, SortedKeys(t.rows, key)[i], c))
    ensures forall c :: c in t.columns && c != key ==> c in Coalesce(t, key).rows[i]
    ensures WellFormed(t) ==> Coalesce(t, key).rows[i].Keys == set c | c in t.columns
  {
    var ks := SortedKeys(t.rows, key);
    var g := Matching(t.rows, key, Some(ks[i]));
    GroupRowsAt(t.rows, key, ks, t.columns, i);
    var row := Coalesce(t, key).rows[i];
    assert row == MergedRow(g, t.columns, key);
    MergedRowCells(g, t.columns, key);
    assert g[0] in g;
    forall c | c in t.columns && c != key
      ensures IsMaxOf(Lookup(row, c), GroupValues(t.rows, key, ks[i], c))
    {
      MaxPresentOfGroup(t.rows, key, ks[i], c);
    }
  }

  /** Coalescing yields one row per identifier, in strictly ascending order. */
  lemma CoalesceAscending(t: Table, key: Column)
    ensures AscendingKeys(Coalesce(t, key).rows, key)
  {
    var ks := SortedKeys(t.rows, key);
    var rows := Coalesce(t, key).rows;
    forall i | 0 <= i < |ks|
      ensures Lookup(rows[i], key) == Some(ks[i])
    {
      CoalescedRow(t, key, i);
    }
  }

  /**
   * What coalescing promises (merge.py:36-47): the columns are kept; there is
   * exactly one row per identifier present in the input, in ascending order,
   * and no other; each non-identifier cell is the largest non-missing value of
   * its group, missing when the group has none.
   */
  lemma CoalesceCorrect(t: Table, key: Column)
    ensures Coalesce(t, key).columns == t.columns
    ensures AscendingKeys(Coalesce(t, key).rows, key)
    ensures KeySet(Coalesce(t, key).rows, key) == KeySet(t.rows, key)
    ensures forall i, c :: 0 <= i < |Coalesce(t, key).rows| && c in t.columns && c != key ==>
      IsMaxOf(Lookup(Coalesce(t, key).rows[i], c), GroupValues(t.rows, key, Lookup(Coalesce(t, key).rows[i], key).value, c))
    ensures WellFormed(t) ==> WellFormed(Coalesce(t, key))
  {
    CoalesceAscending(t, key);
    CoalesceKeySet(t, key);
    CoalesceValues(t, key);
    CoalesceWellFormed(t, key);
  }

  /** Coalescing keeps exactly the identifiers present in the input. */
  lemma CoalesceKeySet(t: Table, key: Column)
    ensures KeySet(Coalesce(t, key).rows, key) == KeySet(t.rows, key)
  {
    var ks := SortedKeys(t.rows, key);
    var rows := Coalesce(t, key).rows;
    forall i | 0 <= i < |ks|
      ensures Lookup(rows[i], key) == Some(ks[i])
    {
      CoalescedRow(t, key, i);
    }
    RowKeys(rows, ks, key);
  }

  /** Rows whose identifiers are, position by position, the list `ks` carry exactly the identifiers in `ks`. */
  lemma RowKeys(rows: seq<Row>, ks: seq<string>, key: Column)
    requires |rows| == |ks|
    requires forall i :: 0 <= i < |ks| ==> Lookup(rows[i], key) == Some(ks[i])
    ensures forall k :: k in KeySet(rows, key) <==> k in ks
  {
    forall k | k in KeySet(rows, key)
      ensures k in ks
    {
      var x :| x in rows && Lookup(x, key) == Some(k);
      var i :| 0 <= i < |rows| && rows[i] == x;
    }
    forall k | k in ks
      ensures k in KeySet(rows, key)
    {
      var i :| 0 <= i < |ks| && ks[i] == k;
      assert rows[i] in rows;
    }
  }

  /**
   * Every row of `t` has an identifier, and each of its cells in a
   * non-identifier column of `source` is the largest value of that
   * identifier's group in `source`.
   */
  ghost predicate GroupMaxima(t: Table, source: Table, key: Column)
  {
    forall i, c :: 0 <= i < |t.rows| && c in source.columns && c != key ==>
      Lookup(t.rows[i], key).Some? &&
      IsMaxOf(Lookup(t.rows[i], c), GroupValues(source.rows, key, Lookup(t.rows[i], key).value, c))
  }

  /** Each non-identifier cell of the coalesced table is the largest value of its group. */
  lemma CoalesceValues(t: Table, key: Column)
    ensures GroupMaxima(Coalesce(t, key), t, key)
  {
    var rows := Coalesce(t, key).rows;
    forall i, c | 0 <= i < |rows| && c in t.columns && c != key
      ensures Lookup(rows[i], key).Some?
      ensures IsMaxOf(Lookup(rows[i], c), GroupValues(t.rows, key, Lookup(rows[i], key).value, c))
    {
      CoalescedRow(t, key, i);
    }
  }

  /** Coalescing a well-formed table gives a well-formed table. */
  lemma CoalesceWellFormed(t: Table, key: Column)
    ensures WellFormed(t) ==> WellFormed(Coalesce(t, key))
  {
    var rows := Coalesce(t, key).rows;
    if WellFormed(t) {
      forall i | 0 <= i < |rows|
        ensures rows[i].Keys == set c | c in t.columns
      {
        CoalescedRow(t, key, i);
      }
    }
  }

  /** Merging a group whose rows are all the row `x`, which already has every column, gives back `x`. */
  lemma MergeSingleRow(g: seq<Row>, x: Row, columns: seq<Column>, key: Column)
    requires x in g && forall y :: y in g ==> y == x
    requires forall c :: c in columns && c != key ==> c in x
    ensures MergedRow(g, columns, key) == x
  {
    assert g[0] in g;
    var m := MergedRow(g, columns, key);
    MergedRowCells(g, columns, key);
    forall c | c in m
      ensures c in x && m[c] == x[c]
    {
      if c in columns && c != key {
        assert MaxPresent(g, c) == Lookup(x, c);
      }
    }
    assert m.Keys == x.Keys;
  }

  lemma CoalescedKeyKept(t: Table, key: Column, v: string)
    requires v in SortedKeys(t.rows, key)
    ensures v in SortedKeys(Coalesce(t, key).rows, key)
  {
    var rows := Coalesce(t, key).rows;
    var ks := SortedKeys(t.rows, key);
    var i :| 0 <= i < |ks| && ks[i] == v;
    CoalescedRow(t, key, i);
    assert rows[i] in rows;
  }

  lemma CoalescedKeyOrigin(t: Table, key: Column, v: string)
    requires v in SortedKeys(Coalesce(t, key).rows, key)
    ensures v in SortedKeys(t.rows, key)
  {
    var i := SortedKeyIndex(Coalesce(t, key).rows, key, v);
    CoalescedRow(t, key, i);
  }

  /** A group key of `rows` is the identifier of some row, found by position. */
  lemma SortedKeyIndex(rows: seq<Row>, key: Column, v: string) returns (i: nat)
    requires v in SortedKeys(rows, key)
    ensures i < |rows| && Lookup(rows[i], key) == Some(v)
  {
    var x :| x in rows && Lookup(x, key) == Some(v);
    i :| 0 <= i < |rows| && rows[i] == x;
  }

  /** The groups of a coalesced table are the groups it was made from. */
  lemma CoalescedKeys(t: Table, key: Column)
    ensures SortedKeys(Coalesce(t, key).rows, key) == SortedKeys(t.rows, key)
  {
    var ks := SortedKeys(t.rows, key);
    var ks2 := SortedKeys(Coalesce(t, key).rows, key);
    forall v
      ensures v in ks2 <==> v in ks
    {
      if v in ks {
        CoalescedKeyKept(t, key, v);
      }
      if v in ks2 {
        CoalescedKeyOrigin(t, key, v);
      }
    }
    AscendingUnique(ks2, ks);
  }

  /** Each row of a coalesced table is its own group, so coalescing it again gives it back. */
  lemma CoalescedRowStable(t: Table, key: Column, i: nat)
    requires i < |Coalesce(t, key).rows|
    ensures |Coalesce(Coalesce(t, key), key).rows| == |Coalesce(t, key).rows|
    ensures Coalesce(Coalesce(t, key), key).rows[i] == Coalesce(t, key).rows[i]
  {
    var c1 := Coalesce(t, key);
    var ks := SortedKeys(t.rows, key);
    CoalescedKeys(t, key);
    var x := c1.rows[i];
    var g := Matching(c1.rows, key, Some(ks[i]));
    assert Lookup(x, key) == Some(ks[i]) && forall c :: c in c1.columns && c != key ==> c in x by {
      CoalescedRow(t, key, i);
    }
    assert Coalesce(c1, key).rows[i] == MergedRow(g, c1.columns, key) by {
      GroupRowsAt(c1.rows, key, ks, c1.columns, i);
    }
    assert x in g && forall y :: y in g ==> y == x by {
      CoalesceAscending(t, key);
      AscendingGroup(c1.rows, key, i);
    }
    MergeSingleRow(g, x, c1.columns, key);
  }

  /** Coalescing an already coalesced table changes nothing (merge.py:36-47 applied twice). */
  lemma CoalesceIdempotent(t: Table, key: Column)
    ensures Coalesce(Coalesce(t, key), key) == Coalesce(t, key)
  {
    var c1 := Coalesce(t, key);
    var c2 := Coalesce(c1, key);
    CoalescedKeys(t, key);
    forall i | 0 <= i < |c1.rows|
      ensures c2.rows[i] == c1.rows[i]
    {
      CoalescedRowStable(t, key, i);
    }
  }
}
