/**
 * The data model of the merge: a table of all-text cells, as `read_csv` with
 * `dtype=str` produces it. A cell is either a string or missing (pandas' NaN).
 */
module Tables {
  import opened Wrappers
  import opened LexOrder

  type Column = string

  /** A cell: `None` is a missing value. */
  type Cell = Option<string>

  /** A row maps each column name of its table to a cell. */
  type Row = map<Column, Cell>

  /** A data frame: its column names, in order, and its rows, in order. */
  datatype Table = Table(columns: seq<Column>, rows: seq<Row>)

  /** The cell of `row` in column `c`; a column the row lacks reads as missing. */
  function Lookup(row: Row, c: Column): Cell
  {
    if c in row then row[c] else None
  }

  /** Every row has exactly the table's columns. */
  ghost predicate WellFormed(t: Table)
  {
    forall x :: x in t.rows ==> x.Keys == (set c | c in t.columns)
  }

  /** The rows whose identifier cell equals `k`, in their original order. */
  function Matching(rows: seq<Row>, key: Column, k: Cell): (g: seq<Row>)
    ensures forall x :: x in g <==> x in rows && Lookup(x, key) == k
    ensures |g| <= |rows|
  {
    if rows == [] then []
    else if Lookup(rows[0], key) == k then [rows[0]] + Matching(rows[1..], key, k)
    else Matching(rows[1..], key, k)
  }

  /** The identifier values present in `rows` (a missing identifier is not a value). */
  ghost function KeySet(rows: seq<Row>, key: Column): set<string>
  {
    set x | x in rows && Lookup(x, key).Some? :: Lookup(x, key).value
  }

  /** The non-missing values of column `c` over the rows whose identifier is `k`. */
  ghost function GroupValues(rows: seq<Row>, key: Column, k: string, c: Column): set<string>
  {
    set x | x in rows && Lookup(x, key) == Some(k) && Lookup(x, c).Some? :: Lookup(x, c).value
  }

  /** Each element sorts strictly before every later one. */
  predicate StrictlyAscending(ks: seq<string>)
  {
    forall i, j :: 0 <= i < j < |ks| ==> LexLess(ks[i], ks[j])
  }

  /** Every row has an identifier, and identifiers strictly ascend down the table. */
  ghost predicate AscendingKeys(rows: seq<Row>, key: Column)
  {
    && (forall i :: 0 <= i < |rows| ==> Lookup(rows[i], key).Some?)
    && (forall i, j :: 0 <= i < j < |rows| ==>
          Lookup(rows[i], key).Some? && Lookup(rows[j], key).Some? &&
          LexLess(Lookup(rows[i], key).value, Lookup(rows[j], key).value))
  }

  /** Rows with ascending identifiers carry each identifier once, so there are as many rows as identifiers. */
  lemma AscendingKeysUnique(rows: seq<Row>, key: Column)
    requires AscendingKeys(rows, key)
    ensures forall i, j :: 0 <= i < |rows| && 0 <= j < |rows| && i != j ==> Lookup(rows[i], key) != Lookup(rows[j], key)
    ensures |KeySet(rows, key)| == |rows|
  {
    forall i, j | 0 <= i < |rows| && 0 <= j < |rows| && i != j
      ensures Lookup(rows[i], key) != Lookup(rows[j], key)
    {
      if i < j {
        LexIrreflexive(Lookup(rows[i], key).value);
      } else {
        LexIrreflexive(Lookup(rows[j], key).value);
      }
    }
    KeySetCardinality(rows, key);
  }

  lemma {:induction false} KeySetCardinality(rows: seq<Row>, key: Column)
    requires forall i :: 0 <= i < |rows| ==> Lookup(rows[i], key).Some?
    requires forall i, j :: 0 <= i < |rows| && 0 <= j < |rows| && i != j ==> Lookup(rows[i], key) != Lookup(rows[j], key)
    ensures |KeySet(rows, key)| == |rows|
  {
    if rows != [] {
      var tail := rows[1..];
      KeySetCardinality(tail, key);
      var k := Lookup(rows[0], key).value;
      KeySetCons(rows, key);
      assert k !in KeySet(tail, key) by {
        forall j | 0 <= j < |tail|
          ensures Lookup(tail[j], key) != Some(k)
        {
          assert tail[j] == rows[j + 1];
        }
      }
    }
  }

  /** The identifiers of a non-empty list of rows: those of its tail, plus the first row's. */
  lemma KeySetCons(rows: seq<Row>, key: Column)
    requires |rows| > 0 && Lookup(rows[0], key).Some?
    ensures KeySet(rows, key) == KeySet(rows[1..], key) + {Lookup(rows[0], key).value}
  {
    assert rows == [rows[0]] + rows[1..];
  }

  /** With ascending identifiers, the group of a row's identifier is that row alone. */
  lemma AscendingGroup(rows: seq<Row>, key: Column, i: nat)
    requires AscendingKeys(rows, key) && i < |rows|
    ensures rows[i] in Matching(rows, key, Lookup(rows[i], key))
    ensures forall y :: y in Matching(rows, key, Lookup(rows[i], key)) ==> y == rows[i]
  {
    AscendingKeysUnique(rows, key);
    forall y | y in Matching(rows, key, Lookup(rows[i], key))
      ensures y == rows[i]
    {
      var j :| 0 <= j < |rows| && rows[j] == y;
    }
  }

  /** An identifier present in the rows is the identifier of some row, found by position. */
  lemma KeyIndex(rows: seq<Row>, key: Column, k: string) returns (m: nat)
    requires k in KeySet(rows, key)
    ensures m < |rows| && Lookup(rows[m], key) == Some(k)
  {
    var x :| x in rows && Lookup(x, key) == Some(k);
    var i :| 0 <= i < |rows| && rows[i] == x;
    m := i;
  }

  /** With ascending identifiers, a group's values in a column are those of its single row. */
  lemma AscendingGroupValues(rows: seq<Row>, key: Column, m: nat, c: Column)
    requires AscendingKeys(rows, key) && m < |rows|
    ensures GroupValues(rows, key, Lookup(rows[m], key).value, c) ==
      if Lookup(rows[m], c).Some? then {Lookup(rows[m], c).value} else {}
  {
    AscendingKeysUnique(rows, key);
    var k := Lookup(rows[m], key).value;
    forall v | v in GroupValues(rows, key, k, c)
      ensures Lookup(rows[m], c) == Some(v)
    {
      var x :| x in rows && Lookup(x, key) == Some(k) && Lookup(x, c) == Some(v);
      var j :| 0 <= j < |rows| && rows[j] == x;
    }
    assert rows[m] in rows;
  }
}
