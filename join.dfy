/**
 * `pd.merge(left, right, on=key, how='outer')` (merge.py:34): a full outer join
 * on the identifier column. Rows of the two sides with equal identifier cells
 * are paired (every pair, so duplicates multiply); a row with no partner is
 * kept and padded with missing cells for the other side's columns. As in
 * pandas, a missing identifier matches a missing identifier.
 */
module OuterJoin {
  import opened Wrappers
  import opened Tables

  /** The column names other than the identifier, in order. */
  function NonKey(columns: seq<Column>, key: Column): (r: seq<Column>)
    ensures forall c :: c in r <==> c in columns && c != key
  {
    if columns == [] then []
    else
      assert forall c :: c in columns <==> c == columns[0] || c in columns[1..];
      (if columns[0] == key then [] else [columns[0]]) + NonKey(columns[1..], key)
  }

  /** A left row paired with a right row: the right row contributes its non-identifier cells. */
  function JoinRow(l: Row, r: Row, key: Column): Row
  {
    l + (r - {key})
  }

  /** A left row with no partner, padded with missing cells for the right side's columns. */
  function PadRight(l: Row, rightColumns: seq<Column>, key: Column): Row
  {
    l + map c | c in rightColumns && c != key :: None
  }

  /** A right row with no partner, padded with missing cells for the left side's columns. */
  function PadLeft(r: Row, leftColumns: seq<Column>, key: Column): Row
  {
    (map c | c in leftColumns && c != key :: None) + r
  }

  /** The rows that pair each left row with each of its partners, or pad it when it has none. */
  function LeftRows(ls: seq<Row>, right: Table, key: Column): seq<Row>
  {
    if ls == [] then []
    else
      var l := ls[0];
      var partners := Matching(right.rows, key, Lookup(l, key));
      (if partners == [] then [PadRight(l, right.columns, key)]
       else seq(|partners|, i requires 0 <= i < |partners| => JoinRow(l, partners[i], key)))
      + LeftRows(ls[1..], right, key)
  }

  /** The padded right rows that have no partner on the left. */
  function RightOnlyRows(rs: seq<Row>, left: Table, key: Column): seq<Row>
  {
    if rs == [] then []
    else
      var r := rs[0];
      (if Matching(left.rows, key, Lookup(r, key)) == [] then [PadLeft(r, left.columns, key)] else [])
      + RightOnlyRows(rs[1..], left, key)
  }

  /** The outer join: left columns, then the right's non-identifier columns. */
  function Join(left: Table, right: Table, key: Column): Table
  {
    Table(left.columns + NonKey(right.columns, key),
          LeftRows(left.rows, right, key) + RightOnlyRows(right.rows, left, key))
  }

  /**
   * Every joined row comes from a left row `l`: paired with the partner `r`
   * when `r` is given, padded when it is not.
   */
  lemma {:induction false} LeftRowsOrigin(ls: seq<Row>, right: Table, key: Column, x: Row) returns (l: Row, r: Option<Row>)
    requires x in LeftRows(ls, right, key)
    ensures l in ls
    ensures r.None? ==> x == PadRight(l, right.columns, key)
    ensures r.Some? ==> r.value in right.rows && Lookup(r.value, key) == Lookup(l, key) && x == JoinRow(l, r.value, key)
  {
    var partners := Matching(right.rows, key, Lookup(ls[0], key));
    if x !in LeftRows(ls[1..], right, key) {
      l := ls[0];
      if partners == [] {
        r := None;
      } else {
        var i :| 0 <= i < |partners| && x == JoinRow(l, partners[i], key);
        assert partners[i] in partners;
        r := Some(partners[i]);
      }
    } else {
      l, r := LeftRowsOrigin(ls[1..], right, key, x);
    }
  }

  /** Every left row is paired with each of its partners, or padded when it has none. */
  lemma {:induction false} LeftRowsComplete(ls: seq<Row>, right: Table, key: Column, l: Row)
    requires l in ls
    ensures Matching(right.rows, key, Lookup(l, key)) == [] ==> PadRight(l, right.columns, key) in LeftRows(ls, right, key)
    ensures forall r :: r in right.rows && Lookup(r, key) == Lookup(l, key) ==> JoinRow(l, r, key) in LeftRows(ls, right, key)
  {
    var partners := Matching(right.rows, key, Lookup(ls[0], key));
    var head := if partners == [] then [PadRight(ls[0], right.columns, key)]
                else seq(|partners|, i requires 0 <= i < |partners| => JoinRow(ls[0], partners[i], key));
    assert LeftRows(ls, right, key) == head + LeftRows(ls[1..], right, key);
    if l == ls[0] {
      forall r | r in right.rows && Lookup(r, key) == Lookup(l, key)
        ensures JoinRow(l, r, key) in LeftRows(ls, right, key)
      {
        assert r in partners;
        var i :| 0 <= i < |partners| && partners[i] == r;
        assert head[i] == JoinRow(l, r, key);
      }
    } else {
      LeftRowsComplete(ls[1..], right, key, l);
    }
  }

  /** Every row of the right-only part is a padded right row. */
  lemma {:induction false} RightOnlyRowsOrigin(rs: seq<Row>, left: Table, key: Column, x: Row) returns (r: Row)
    requires x in RightOnlyRows(rs, left, key)
    ensures r in rs && x == PadLeft(r, left.columns, key)
  {
    if x == PadLeft(rs[0], left.columns, key) {
      r := rs[0];
    } else {
      r := RightOnlyRowsOrigin(rs[1..], left, key, x);
    }
  }

  lemma {:induction false} RightOnlyRowsComplete(rs: seq<Row>, left: Table, key: Column, r: Row)
    requires r in rs && Matching(left.rows, key, Lookup(r, key)) == []
    ensures PadLeft(r, left.columns, key) in RightOnlyRows(rs, left, key)
  {
    if r != rs[0] {
      RightOnlyRowsComplete(rs[1..], left, key, r);
    }
  }

  /** How a cell reads after pairing: the right row's non-identifier cells win. */
  lemma LookupJoinRow(l: Row, r: Row, key: Column, c: Column)
    ensures Lookup(JoinRow(l, r, key), c) == if c != key && c in r then r[c] else Lookup(l, c)
  {
  }

  /** Padding on the right only adds missing cells for the right side's columns. */
  lemma LookupPadRight(l: Row, rightColumns: seq<Column>, key: Column, c: Column)
    ensures Lookup(PadRight(l, rightColumns, key), c) == if c != key && c in rightColumns then None else Lookup(l, c)
  {
  }

  /** Padding on the left changes no cell: every cell reads as in the right row. */
  lemma LookupPadLeft(r: Row, leftColumns: seq<Column>, key: Column, c: Column)
    ensures Lookup(PadLeft(r, leftColumns, key), c) == Lookup(r, c)
  {
  }

  /** The identifier cell of each kind of joined row. */
  lemma JoinedKey(x: Row, l: Row, r: Option<Row>, right: Table, key: Column)
    requires r.None? ==> x == PadRight(l, right.columns, key)
    requires r.Some? ==> Lookup(r.value, key) == Lookup(l, key) && x == JoinRow(l, r.value, key)
    ensures Lookup(x, key) == Lookup(l, key)
    ensures r.Some? ==> Lookup(x, key) == Lookup(r.value, key)
  {
    if r.None? {
      LookupPadRight(l, right.columns, key, key);
    } else {
      LookupJoinRow(l, r.value, key, key);
    }
  }

  /** The outer join keeps every identifier of both sides and invents none. */
  lemma JoinKeys(left: Table, right: Table, key: Column)
    ensures KeySet(Join(left, right, key).rows, key) == KeySet(left.rows, key) + KeySet(right.rows, key)
  {
    var j := Join(left, right, key);
    forall k | k in KeySet(j.rows, key)
      ensures k in KeySet(left.rows, key) + KeySet(right.rows, key)
    {
      var x :| x in j.rows && Lookup(x, key) == Some(k);
      if x in LeftRows(left.rows, right, key) {
        var l, r := LeftRowsOrigin(left.rows, right, key, x);
        JoinedKey(x, l, r, right, key);
      } else {
        var r := RightOnlyRowsOrigin(right.rows, left, key, x);
        LookupPadLeft(r, left.columns, key, key);
      }
    }
    forall k | k in KeySet(left.rows, key)
      ensures k in KeySet(j.rows, key)
    {
      var l :| l in left.rows && Lookup(l, key) == Some(k);
      LeftRowsComplete(left.rows, right, key, l);
      var partners := Matching(right.rows, key, Lookup(l, key));
      if partners == [] {
        JoinedKey(PadRight(l, right.columns, key), l, None, right, key);
      } else {
        assert partners[0] in partners;
        JoinedKey(JoinRow(l, partners[0], key), l, Some(partners[0]), right, key);
      }
    }
    forall k | k in KeySet(right.rows, key)
      ensures k in KeySet(j.rows, key)
    {
      var r :| r in right.rows && Lookup(r, key) == Some(k);
      var partners := Matching(left.rows, key, Lookup(r, key));
      if partners == [] {
        RightOnlyRowsComplete(right.rows, left, key, r);
        LookupPadLeft(r, left.columns, key, key);
      } else {
        assert partners[0] in partners;
        LeftRowsComplete(left.rows, right, key, partners[0]);
        JoinedKey(JoinRow(partners[0], r, key), partners[0], Some(r), right, key);
      }
    }
  }

  /**
   * A column that only the left side has keeps, per identifier, exactly the
   * left side's non-missing values: pairing repeats them, padding adds none.
   */
  lemma JoinLeftValues(left: Table, right: Table, key: Column, k: string, c: Column)
    requires c != key
    requires c !in right.columns
    requires forall r :: r in right.rows ==> c !in r
    ensures GroupValues(Join(left, right, key).rows, key, k, c) == GroupValues(left.rows, key, k, c)
  {
    var j := Join(left, right, key);
    forall v | v in GroupValues(j.rows, key, k, c)
      ensures v in GroupValues(left.rows, key, k, c)
    {
      var x :| x in j.rows && Lookup(x, key) == Some(k) && Lookup(x, c) == Some(v);
      if x in LeftRows(left.rows, right, key) {
        var l, r := LeftRowsOrigin(left.rows, right, key, x);
        JoinedKey(x, l, r, right, key);
        if r.None? {
          LookupPadRight(l, right.columns, key, c);
        } else {
          LookupJoinRow(l, r.value, key, c);
        }
      } else {
        var r := RightOnlyRowsOrigin(right.rows, left, key, x);
        LookupPadLeft(r, left.columns, key, c);
      }
    }
    forall v | v in GroupValues(left.rows, key, k, c)
      ensures v in GroupValues(j.rows, key, k, c)
    {
      var l :| l in left.rows && Lookup(l, key) == Some(k) && Lookup(l, c) == Some(v);
      LeftRowsComplete(left.rows, right, key, l);
      var partners := Matching(right.rows, key, Lookup(l, key));
      if partners == [] {
        var x := PadRight(l, right.columns, key);
        JoinedKey(x, l, None, right, key);
        LookupPadRight(l, right.columns, key, c);
        assert x in j.rows;
      } else {
        assert partners[0] in partners;
        var x := JoinRow(l, partners[0], key);
        JoinedKey(x, l, Some(partners[0]), right, key);
        LookupJoinRow(l, partners[0], key, c);
        assert x in j.rows;
      }
    }
  }

  /** Symmetrically, a column that only the right side has keeps the right side's values. */
  lemma JoinRightValues(left: Table, right: Table, key: Column, k: string, c: Column)
    requires c != key
    requires forall l :: l in left.rows ==> c !in l
    ensures GroupValues(Join(left, right, key).rows, key, k, c) == GroupValues(right.rows, key, k, c)
  {
    var j := Join(left, right, key);
    forall v | v in GroupValues(j.rows, key, k, c)
      ensures v in GroupValues(right.rows, key, k, c)
    {
      var x :| x in j.rows && Lookup(x, key) == Some(k) && Lookup(x, c) == Some(v);
      if x in LeftRows(left.rows, right, key) {
        var l, r := LeftRowsOrigin(left.rows, right, key, x);
        JoinedKey(x, l, r, right, key);
        if r.None? {
          LookupPadRight(l, right.columns, key, c);
        } else {
          LookupJoinRow(l, r.value, key, c);
        }
      } else {
        var r := RightOnlyRowsOrigin(right.rows, left, key, x);
        LookupPadLeft(r, left.columns, key, c);
        LookupPadLeft(r, left.columns, key, key);
      }
    }
    forall v | v in GroupValues(right.rows, key, k, c)
      ensures v in GroupValues(j.rows, key, k, c)
    {
      var r :| r in right.rows && Lookup(r, key) == Some(k) && Lookup(r, c) == Some(v);
      var partners := Matching(left.rows, key, Lookup(r, key));
      if partners == [] {
        RightOnlyRowsComplete(right.rows, left, key, r);
        var x := PadLeft(r, left.columns, key);
        LookupPadLeft(r, left.columns, key, c);
        LookupPadLeft(r, left.columns, key, key);
        assert x in j.rows;
      } else {
        var l := partners[0];
        assert l in partners;
        LeftRowsComplete(left.rows, right, key, l);
        var x := JoinRow(l, r, key);
        JoinedKey(x, l, Some(r), right, key);
        LookupJoinRow(l, r, key, c);
        assert x in j.rows;
      }
    }
  }

  /** When both sides have the identifier column, every joined row has exactly the joined columns. */
  lemma JoinWellFormed(left: Table, right: Table, key: Column)
    requires WellFormed(left) && WellFormed(right)
    requires key in left.columns && key in right.columns
    ensures WellFormed(Join(left, right, key))
  {
    var j := Join(left, right, key);
    var cols := set c | c in j.columns;
    forall x | x in j.rows
      ensures x.Keys == cols
    {
      if x in LeftRows(left.rows, right, key) {
        var l, r := LeftRowsOrigin(left.rows, right, key, x);
      } else {
        var r := RightOnlyRowsOrigin(right.rows, left, key, x);
      }
    }
  }
  /**
   * What the merge needs of a joined table `j0`: it has the columns of both
   * sides, and in a column of only one side each identifier's values are that
   * side's values.
   */
  ghost predicate JoinSummary(left: Table, right: Table, key: Column, j0: Table)
  {
    && (forall c :: c in left.columns ==> c in j0.columns)
    && (forall c :: c in right.columns && c != key ==> c in j0.columns)
    && (forall k, c :: c != key && c !in right.columns ==>
          GroupValues(j0.rows, key, k, c) == GroupValues(left.rows, key, k, c))
    && (forall k, c :: c != key && c !in left.columns ==>
          GroupValues(j0.rows, key, k, c) == GroupValues(right.rows, key, k, c))
  }

  /** The join of two well-formed tables has the summary's columns and values. */
  lemma JoinSummaryHolds(left: Table, right: Table, key: Column)
    requires WellFormed(left) && WellFormed(right)
    ensures JoinSummary(left, right, key, Join(left, right, key))
  {
    forall k, c | c != key && c !in right.columns
      ensures GroupValues(Join(left, right, key).rows, key, k, c) == GroupValues(left.rows, key, k, c)
    {
      JoinLeftValues(left, right, key, k, c);
    }
    forall k, c | c != key && c !in left.columns
      ensures GroupValues(Join(left, right, key).rows, key, k, c) == GroupValues(right.rows, key, k, c)
    {
      JoinRightValues(left, right, key, k, c);
    }
  }
}
