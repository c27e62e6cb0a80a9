/**
 * A worked example of the merge: two files, one shared identifier column.
 * File A has the identifier `one` twice, with `x` values `ten` and `nine`; file
 * B has the identifiers `one` and `two`, with `y` values `foo` and `bar`.
 */
module MergeExample {
  import opened Wrappers
  import opened LexOrder
  import opened Tables
  import opened Coalescing
  import opened Merge

  /** The names and values of the example, kept symbolic. */
  datatype Names = Names(key: Column, x: Column, y: Column, one: string, two: string,
                         ten: string, nine: string, foo: string, bar: string)

  /** Distinct column names, identifiers in text order, and `ten` sorting before `nine`. */
  predicate ValidNames(n: Names)
  {
    && n.key != n.x && n.key != n.y && n.x != n.y
    && LexLess(n.one, n.two) && LexLess(n.ten, n.nine)
  }

  function FileA(n: Names): Table
  {
    Table([n.key, n.x], [map[n.key := Some(n.one), n.x := Some(n.ten)],
                         map[n.key := Some(n.one), n.x := Some(n.nine)]])
  }

  function FileB(n: Names): Table
  {
    Table([n.key, n.y], [map[n.key := Some(n.one), n.y := Some(n.foo)],
                         map[n.key := Some(n.two), n.y := Some(n.bar)]])
  }

  lemma ExampleAdmissible(n: Names)
    requires ValidNames(n)
    ensures Admissible([FileA(n), FileB(n)], n.key)
  {
    assert WellFormed(FileA(n)) && WellFormed(FileB(n));
  }

  lemma ExampleKeys(n: Names)
    requires ValidNames(n)
    ensures AllKeys([FileA(n), FileB(n)], n.key) == {n.one, n.two}
    ensures |AllKeys([FileA(n), FileB(n)], n.key)| == 2
  {
    var files := [FileA(n), FileB(n)];
    assert n.one in AllKeys(files, n.key) && n.two in AllKeys(files, n.key) by {
      var x0, x1 := FileA(n).rows[0], FileB(n).rows[1];
      assert x0 in files[0].rows && Lookup(x0, n.key) == Some(n.one);
      assert x1 in files[1].rows && Lookup(x1, n.key) == Some(n.two);
    }
    forall j, x | 0 <= j < |files| && x in files[j].rows && Lookup(x, n.key).Some?
      ensures Lookup(x, n.key).value in {n.one, n.two}
    {
      assert x in FileA(n).rows || x in FileB(n).rows;
    }
    LexIrreflexive(n.one);
  }

  /** The groups of file A: identifier `one` has `x` values `ten` and `nine`, identifier `two` none. */
  lemma GroupsOfA(n: Names)
    requires ValidNames(n)
    ensures GroupValues(FileA(n).rows, n.key, n.one, n.x) == {n.ten, n.nine}
    ensures GroupValues(FileA(n).rows, n.key, n.two, n.x) == {}
  {
    var a := FileA(n).rows;
    assert a[0] in a && a[1] in a;
    LexIrreflexive(n.one);
  }

  /** The groups of file B: identifier `one` has `y` value `foo`, identifier `two` has `bar`. */
  lemma GroupsOfB(n: Names)
    requires ValidNames(n)
    ensures GroupValues(FileB(n).rows, n.key, n.one, n.y) == {n.foo}
    ensures GroupValues(FileB(n).rows, n.key, n.two, n.y) == {n.bar}
  {
    var b := FileB(n).rows;
    assert b[0] in b && b[1] in b;
    LexIrreflexive(n.one);
  }

  /** Two rows whose identifiers ascend and are exactly `one` and `two` are in that order. */
  lemma ExampleOrder(t: Table, n: Names)
    requires ValidNames(n)
    requires AscendingKeys(t.rows, n.key) && |t.rows| == 2
    requires KeySet(t.rows, n.key) == {n.one, n.two}
    ensures Lookup(t.rows[0], n.key) == Some(n.one) && Lookup(t.rows[1], n.key) == Some(n.two)
  {
    LexAsymmetric(n.one, n.two);
    LexIrreflexive(n.one);
    LexIrreflexive(n.two);
    assert t.rows[0] in t.rows && t.rows[1] in t.rows;
  }

  /** The columns of a table built from A and B are the identifier, `x` and `y`. */
  lemma ExampleColumns(columns: seq<Column>, n: Names)
    requires forall c :: c in columns <==> exists j :: 0 <= j < 2 && c in [FileA(n), FileB(n)][j].columns
    ensures (set c | c in columns) == {n.key, n.x, n.y}
  {
    var files := [FileA(n), FileB(n)];
    assert n.key in files[0].columns && n.x in files[0].columns && n.y in files[1].columns;
    forall c | c in columns
      ensures c == n.key || c == n.x || c == n.y
    {
      var j :| 0 <= j < 2 && c in files[j].columns;
    }
  }

  /** A row over three columns is determined by its three cells. */
  lemma RowOfCells(r: Row, n: Names, k: Cell, x: Cell, y: Cell)
    requires r.Keys == {n.key, n.x, n.y}
    requires Lookup(r, n.key) == k && Lookup(r, n.x) == x && Lookup(r, n.y) == y
    ensures r == map[n.key := k, n.x := x, n.y := y]
  {
  }

  /** The identifiers and columns of the two rows of a characterised table for A and B. */
  lemma ExampleRowKeys(t: Table, n: Names)
    requires ValidNames(n)
    requires Characterises(t, [FileA(n), FileB(n)], n.key)
    requires |t.rows| == 2
    ensures Lookup(t.rows[0], n.key) == Some(n.one) && Lookup(t.rows[1], n.key) == Some(n.two)
    ensures t.rows[0].Keys == {n.key, n.x, n.y} && t.rows[1].Keys == {n.key, n.x, n.y}
  {
    ExampleKeys(n);
    ExampleOrder(t, n);
    ExampleColumns(t.columns, n);
    assert t.rows[0] in t.rows && t.rows[1] in t.rows;
  }

  /** A row whose `x` is the maximum of file A's group for `one` has `x` = `nine`, the larger of `ten` and `nine` as text. */
  lemma FirstRowX(r: Row, n: Names)
    requires ValidNames(n)
    requires IsMaxOf(Lookup(r, n.x), GroupValues(FileA(n).rows, n.key, n.one, n.x))
    ensures Lookup(r, n.x) == Some(n.nine)
  {
    GroupsOfA(n);
    assert IsMaxOf(Some(n.nine), {n.ten, n.nine}) by {
      LexIrreflexive(n.nine);
    }
    IsMaxOfUnique(Lookup(r, n.x), Some(n.nine), {n.ten, n.nine});
  }

  /** A row whose `y` is the maximum of file B's group for `one` has `y` = `foo`. */
  lemma FirstRowY(r: Row, n: Names)
    requires ValidNames(n)
    requires IsMaxOf(Lookup(r, n.y), GroupValues(FileB(n).rows, n.key, n.one, n.y))
    ensures Lookup(r, n.y) == Some(n.foo)
  {
    GroupsOfB(n);
    IsMaxOfUnique(Lookup(r, n.y), Some(n.foo), {n.foo});
  }

  /** A row whose `x` is the maximum of file A's group for `two` has `x` missing: A has no row for `two`. */
  lemma SecondRowX(r: Row, n: Names)
    requires ValidNames(n)
    requires IsMaxOf(Lookup(r, n.x), GroupValues(FileA(n).rows, n.key, n.two, n.x))
    ensures Lookup(r, n.x) == None
  {
    GroupsOfA(n);
  }

  /** A row whose `y` is the maximum of file B's group for `two` has `y` = `bar`. */
  lemma SecondRowY(r: Row, n: Names)
    requires ValidNames(n)
    requires IsMaxOf(Lookup(r, n.y), GroupValues(FileB(n).rows, n.key, n.two, n.y))
    ensures Lookup(r, n.y) == Some(n.bar)
  {
    GroupsOfB(n);
    IsMaxOfUnique(Lookup(r, n.y), Some(n.bar), {n.bar});
  }

  /** The rows of any table that the characterisation fits for files A and B. */
  lemma ExampleRows(t: Table, n: Names)
    requires ValidNames(n)
    requires Characterises(t, [FileA(n), FileB(n)], n.key)
    requires |t.rows| == 2
    ensures t.rows[0] == map[n.key := Some(n.one), n.x := Some(n.nine), n.y := Some(n.foo)]
    ensures t.rows[1] == map[n.key := Some(n.two), n.x := None, n.y := Some(n.bar)]
  {
    var files := [FileA(n), FileB(n)];
    ExampleRowKeys(t, n);
    assert n.x in files[0].columns && n.y in files[1].columns;
    CellMax(t, files, n.key, 0, 0, n.x);
    FirstRowX(t.rows[0], n);
    CellMax(t, files, n.key, 0, 1, n.y);
    FirstRowY(t.rows[0], n);
    CellMax(t, files, n.key, 1, 0, n.x);
    SecondRowX(t.rows[1], n);
    CellMax(t, files, n.key, 1, 1, n.y);
    SecondRowY(t.rows[1], n);
    RowOfCells(t.rows[0], n, Some(n.one), Some(n.nine), Some(n.foo));
    RowOfCells(t.rows[1], n, Some(n.two), None, Some(n.bar));
  }

  /**
   * Merging A and B gives two rows: identifier `one` with `x` = `nine` (the
   * text maximum of `ten` and `nine`) and `y` = `foo`, then identifier `two`
   * with `x` missing and `y` = `bar`.
   */
  lemma TwoFiles(n: Names)
    requires ValidNames(n)
    ensures MergeAll([FileA(n), FileB(n)], n.key).Ok?
    ensures var t := MergeAll([FileA(n), FileB(n)], n.key).value;
      && |t.rows| == 2
      && t.rows[0] == map[n.key := Some(n.one), n.x := Some(n.nine), n.y := Some(n.foo)]
      && t.rows[1] == map[n.key := Some(n.two), n.x := None, n.y := Some(n.bar)]
  {
    var files := [FileA(n), FileB(n)];
    ExampleAdmissible(n);
    MergeAllCharacterised(files, n.key);
    var t := MergeAll(files, n.key).value;
    assert |AllKeys(files, n.key)| == 2 by {
      ExampleKeys(n);
    }
    assert |t.rows| == 2 by {
      assert t == Accumulate(files, n.key);
      AccumulateKeys(files, n.key);
    }
    ExampleRows(t, n);
  }

  /**
   * The concrete case: identifier column SEQN; in file A, SEQN 1 has X = "10"
   * and X = "9"; in file B, SEQN 1 has Y = "foo" and SEQN 2 has Y = "bar". The
   * merged X for SEQN 1 is "9", because "10" sorts before "9" as text.
   */
  lemma SeqnExample()
    ensures ValidNames(Names("SEQN", "X", "Y", "1", "2", "10", "9", "foo", "bar"))
  {
    NineAfterTen();
    assert LexLess("1", "2") by {
      assert "1"[0] == '1' && "2"[0] == '2';
    }
    assert "SEQN"[0] != "X"[0] && "SEQN"[0] != "Y"[0] && "X"[0] != "Y"[0];
  }
}
