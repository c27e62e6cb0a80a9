/**
 * `incremental_merge` (merge.py:20-53): fold the files into one accumulated
 * table. The first file is coalesced on its own; every later file is
 * outer-joined to the accumulated table on the identifier column and the
 * result is coalesced again.
 */
module Merge {
  import opened Wrappers
  import opened LexOrder
  import opened Tables
  import opened Coalescing
  import opened OuterJoin

  /** Why no table is produced. */
  datatype MergeError =
    | NoInputFiles                  // the file list is empty: `merged_df` stays None
    | MissingKeyColumn(index: nat)  // file `index` has no identifier column: pandas raises KeyError

  /**
   * The position of the first file without the identifier column, if any: the
   * file at which `df[identifier_column]` raises KeyError (merge.py:28-34).
   */
  function FirstMissing(files: seq<Table>, key: Column): (r: Option<nat>)
    ensures r.Some? ==> r.value < |files| && key !in files[r.value].columns
    ensures r.Some? ==> forall j :: 0 <= j < r.value ==> key in files[j].columns
    ensures r.None? ==> forall j :: 0 <= j < |files| ==> key in files[j].columns
  {
    if |files| == 0 then None
    else if key !in files[0].columns then Some(0)
    else
      match FirstMissing(files[1..], key)
      case None => None
      case Some(i) => Some(i + 1)
  }

  /**
   * The accumulated table after every file of a non-empty list: the first file
   * coalesced on its own, each later one outer-joined to the table so far and
   * the result coalesced again (merge.py:36-47).
   */
  function Accumulate(files: seq<Table>, key: Column): Table
    requires |files| > 0
    decreases |files|
  {
    var n := |files| - 1;
    if n == 0 then Coalesce(files[0], key)
    else Coalesce(Join(Accumulate(files[..n], key), files[n], key), key)
  }

  /**
   * The outcome of merge.py:20-53: no table for an empty file list; a failure
   * naming the first file without the identifier column; otherwise the
   * accumulated table.
   */
  function MergeAll(files: seq<Table>, key: Column): (r: Result<Table, MergeError>)
    ensures |files| == 0 ==> r == Err(NoInputFiles)
    ensures r.Err? ==> (r.error.NoInputFiles? <==> |files| == 0)
    ensures r.Ok? ==> |files| > 0 && r.value == Accumulate(files, key)
    ensures |files| > 0 ==> (r.Ok? <==> forall j :: 0 <= j < |files| ==> key in files[j].columns)
    ensures r.Err? && r.error.MissingKeyColumn? ==>
      r.error.index < |files| && key !in files[r.error.index].columns &&
      forall j :: 0 <= j < r.error.index ==> key in files[j].columns
  {
    if |files| == 0 then Err(NoInputFiles)
    else
      match FirstMissing(files, key)
      case Some(i) => Err(MissingKeyColumn(i))
      case None => Ok(Accumulate(files, key))
  }

  /** The identifiers present in any of the files. */
  ghost function AllKeys(files: seq<Table>, key: Column): set<string>
  {
    set j, x | 0 <= j < |files| && x in files[j].rows && Lookup(x, key).Some? :: Lookup(x, key).value
  }

  lemma AllKeysSnoc(files: seq<Table>, key: Column)
    requires |files| > 0
    ensures AllKeys(files, key) == AllKeys(files[..|files| - 1], key) + KeySet(files[|files| - 1].rows, key)
  {
    var n := |files| - 1;
    forall v | v in AllKeys(files, key)
      ensures v in AllKeys(files[..n], key) + KeySet(files[n].rows, key)
    {
      var j, x :| 0 <= j < |files| && x in files[j].rows && Lookup(x, key) == Some(v);
      if j < n {
        assert files[..n][j] == files[j];
      }
    }
    forall v | v in AllKeys(files[..n], key)
      ensures v in AllKeys(files, key)
    {
      var j, x :| 0 <= j < n && x in files[..n][j].rows && Lookup(x, key) == Some(v);
      assert files[..n][j] == files[j];
    }
  }

  /**
   * After every file, the accumulated table has exactly one row per identifier
   * seen so far, in ascending order: the union of the identifiers of the files
   * (merge.py:34, merge.py:46). Rows with a missing identifier are dropped.
   */
  lemma AccumulateKeys(files: seq<Table>, key: Column)
    requires |files| > 0
    ensures AscendingKeys(Accumulate(files, key).rows, key)
    ensures KeySet(Accumulate(files, key).rows, key) == AllKeys(files, key)
    ensures |Accumulate(files, key).rows| == |AllKeys(files, key)|
  {
    AccumulateAscending(files, key);
    AccumulateKeySet(files, key);
    AscendingKeysUnique(Accumulate(files, key).rows, key);
  }

  /** The accumulated table is always the result of a coalesce, so its identifiers ascend. */
  lemma AccumulateAscending(files: seq<Table>, key: Column)
    requires |files| > 0
    ensures AscendingKeys(Accumulate(files, key).rows, key)
  {
    var n := |files| - 1;
    if n == 0 {
      CoalesceAscending(files[0], key);
    } else {
      CoalesceAscending(Join(Accumulate(files[..n], key), files[n], key), key);
    }
  }

  /** The identifiers of the accumulated table are those of all the files so far. */
  lemma {:induction false} AccumulateKeySet(files: seq<Table>, key: Column)
    requires |files| > 0
    ensures KeySet(Accumulate(files, key).rows, key) == AllKeys(files, key)
    decreases |files|
  {
    var n := |files| - 1;
    var t := Accumulate(files, key);
    if n == 0 {
      assert t == Coalesce(files[0], key);
      calc {
        KeySet(t.rows, key);
        { CoalesceKeySet(files[0], key); }
        KeySet(files[0].rows, key);
        { AllKeysSnoc(files, key); assert AllKeys(files[..0], key) == {}; }
        AllKeys(files, key);
      }
    } else {
      var prefix := files[..n];
      var acc := Accumulate(prefix, key);
      var joined := Join(acc, files[n], key);
      assert t == Coalesce(joined, key);
      calc {
        KeySet(t.rows, key);
        { CoalesceKeySet(joined, key); }
        KeySet(joined.rows, key);
        { JoinKeys(acc, files[n], key); }
        KeySet(acc.rows, key) + KeySet(files[n].rows, key);
        { AccumulateKeySet(prefix, key); }
        AllKeys(prefix, key) + KeySet(files[n].rows, key);
        { AllKeysSnoc(files, key); }
        AllKeys(files, key);
      }
    }
  }

  /** The merged table has one row per identifier of any file, in ascending order. */
  lemma MergeAllKeys(files: seq<Table>, key: Column)
    requires MergeAll(files, key).Ok?
    ensures AscendingKeys(MergeAll(files, key).value.rows, key)
    ensures KeySet(MergeAll(files, key).value.rows, key) == AllKeys(files, key)
    ensures |MergeAll(files, key).value.rows| == |AllKeys(files, key)|
  {
    AccumulateKeys(files, key);
  }

  /** The row count printed at merge.py:48 never decreases from one file to the next. */
  lemma RowCountNeverDecreases(files: seq<Table>, key: Column, i: nat)
    requires 0 < i < |files|
    ensures |Accumulate(files[..i], key).rows| <= |Accumulate(files[..i + 1], key).rows|
  {
    var longer := files[..i + 1];
    var shorter := files[..i];
    assert longer[..i] == shorter;
    assert |Accumulate(shorter, key).rows| == |AllKeys(shorter, key)| by {
      AccumulateKeys(shorter, key);
    }
    assert |Accumulate(longer, key).rows| == |AllKeys(longer, key)| by {
      AccumulateKeys(longer, key);
    }
    assert AllKeys(shorter, key) <= AllKeys(longer, key) by {
      AllKeysSnoc(longer, key);
    }
    SubsetCardinality(AllKeys(shorter, key), AllKeys(longer, key));
  }

  lemma SubsetCardinality(a: set<string>, b: set<string>)
    requires a <= b
    ensures |a| <= |b|
  {
    assert b == a + (b - a);
  }

  /**
   * The inputs the value theorem speaks about: every file has the identifier
   * column and rows with exactly its columns, and no two files share a column
   * other than the identifier (so pandas never has to rename one).
   */
  ghost predicate Admissible(files: seq<Table>, key: Column)
  {
    && (forall j :: 0 <= j < |files| ==> WellFormed(files[j]) && key in files[j].columns)
    && (forall i, j, c :: 0 <= i < j < |files| && c in files[i].columns && c in files[j].columns ==> c == key)
  }

  /**
   * The merged table described from the files alone: it has the union of their
   * columns, one row per identifier found in any file, in ascending order, and
   * in every row each column of file `j` holds the largest of file `j`'s
   * non-missing values for that identifier, or is missing when there is none.
   */
  ghost predicate Characterises(t: Table, files: seq<Table>, key: Column)
  {
    && WellFormed(t)
    && (forall c :: c in t.columns <==> exists j :: 0 <= j < |files| && c in files[j].columns)
    && AscendingKeys(t.rows, key)
    && KeySet(t.rows, key) == AllKeys(files, key)
    && FileMaxima(t, files, key)
  }

  /**
   * Every row of `t` has an identifier, and each of its cells in a
   * non-identifier column of some file is the largest value of that
   * identifier's group in that file.
   */
  ghost predicate FileMaxima(t: Table, files: seq<Table>, key: Column)
  {
    forall i, j, c :: 0 <= i < |t.rows| && 0 <= j < |files| && c in files[j].columns && c != key ==>
      Lookup(t.rows[i], key).Some? &&
      IsMaxOf(Lookup(t.rows[i], c), GroupValues(files[j].rows, key, Lookup(t.rows[i], key).value, c))
  }

  /** One cell of a characterised table: the maximum of its group in a column of one input file. */
  lemma CellMax(t: Table, files: seq<Table>, key: Column, i: nat, j: nat, c: Column)
    requires Characterises(t, files, key)
    requires i < |t.rows| && j < |files| && c in files[j].columns && c != key
    ensures Lookup(t.rows[i], key).Some?
    ensures IsMaxOf(Lookup(t.rows[i], c), GroupValues(files[j].rows, key, Lookup(t.rows[i], key).value, c))
  {
  }

  /**
   * In an accumulated table, the largest value of a group in a column of an
   * earlier file is the cell already there, which is that file's maximum.
   */
  lemma AccumulatedMax(acc: Table, files: seq<Table>, key: Column, j: nat, k: string, c: Column, cell: Cell)
    requires Characterises(acc, files, key)
    requires j < |files| && c in files[j].columns && c != key
    requires IsMaxOf(cell, GroupValues(acc.rows, key, k, c))
    ensures IsMaxOf(cell, GroupValues(files[j].rows, key, k, c))
  {
    if k in KeySet(acc.rows, key) {
      var m := KeyIndex(acc.rows, key, k);
      var x := acc.rows[m];
      var s := GroupValues(acc.rows, key, k, c);
      CellMax(acc, files, key, m, j, c);
      assert IsMaxOf(Lookup(x, c), s) by {
        AscendingGroupValues(acc.rows, key, m, c);
      }
      IsMaxOfUnique(cell, Lookup(x, c), s);
    } else {
      GroupValuesHaveKey(files[j].rows, key, k, c);
      GroupValuesHaveKey(acc.rows, key, k, c);
      assert k !in KeySet(files[j].rows, key) by {
        assert forall x :: x in files[j].rows && Lookup(x, key) == Some(k) ==> k in AllKeys(files, key);
      }
    }
  }

  /** A group with values in some column has an identifier present in the rows. */
  lemma GroupValuesHaveKey(rows: seq<Row>, key: Column, k: string, c: Column)
    ensures forall v :: v in GroupValues(rows, key, k, c) ==> k in KeySet(rows, key)
  {
    forall v | v in GroupValues(rows, key, k, c)
      ensures k in KeySet(rows, key)
    {
      var x :| x in rows && Lookup(x, key) == Some(k) && Lookup(x, c) == Some(v);
    }
  }

  /** The first file alone: the coalesced file is described by the first file. */
  lemma FirstCharacterised(f: Table, key: Column)
    requires WellFormed(f) && key in f.columns
    ensures Characterises(Coalesce(f, key), [f], key)
  {
    var t := Coalesce(f, key);
    CoalesceAscending(f, key);
    CoalesceKeySet(f, key);
    CoalesceValues(f, key);
    CoalesceWellFormed(f, key);
    SingleCharacterised(t, f, key);
  }

  /** A table with a file's columns, identifiers and group maxima is described by that file alone. */
  lemma SingleCharacterised(t: Table, f: Table, key: Column)
    requires WellFormed(t) && t.columns == f.columns && AscendingKeys(t.rows, key)
    requires KeySet(t.rows, key) == KeySet(f.rows, key) && GroupMaxima(t, f, key)
    ensures Characterises(t, [f], key)
  {
    AllKeysSnoc([f], key);
    assert AllKeys([f][..0], key) == {};
    assert forall c :: c in f.columns <==> exists j :: 0 <= j < 1 && c in [f][j].columns;
  }

  /** One more file: join, coalesce, and the description extends to that file. */
  lemma StepCharacterised(acc: Table, files: seq<Table>, f: Table, key: Column)
    requires |files| > 0
    requires Characterises(acc, files, key)
    requires Admissible(files + [f], key)
    ensures Characterises(Coalesce(Join(acc, f, key), key), files + [f], key)
  {
    var all := files + [f];
    var j0 := Join(acc, f, key);
    var t := Coalesce(j0, key);
    assert key in acc.columns by {
      assert all[0] == files[0];
      assert key in files[0].columns;
    }
    assert WellFormed(t) by {
      assert all[|files|] == f;
      JoinWellFormed(acc, f, key);
      CoalesceWellFormed(j0, key);
    }
    assert AscendingKeys(t.rows, key) by {
      CoalesceAscending(j0, key);
    }
    calc {
      KeySet(t.rows, key);
      { CoalesceKeySet(j0, key); }
      KeySet(j0.rows, key);
      { JoinKeys(acc, f, key); }
      KeySet(acc.rows, key) + KeySet(f.rows, key);
      { AllKeysSnoc(all, key); assert all[..|files|] == files && all[|files|] == f; }
      AllKeys(all, key);
    }
    StepColumns(acc, files, f, key);
    CoalesceValues(j0, key);
    assert WellFormed(acc) && WellFormed(f) by {
      assert all[|files|] == f;
    }
    JoinSummaryHolds(acc, f, key);
    StepValues(acc, files, f, key, t, all, j0);
  }

  /** The joined and coalesced table has the columns of the files so far and of the new one. */
  lemma StepColumns(acc: Table, files: seq<Table>, f: Table, key: Column)
    requires key in acc.columns
    requires forall c :: c in acc.columns <==> exists j :: 0 <= j < |files| && c in files[j].columns
    ensures forall c :: c in Coalesce(Join(acc, f, key), key).columns <==>
      exists j :: 0 <= j < |files + [f]| && c in (files + [f])[j].columns
  {
    var all := files + [f];
    var n := |files|;
    assert forall j :: 0 <= j < n ==> all[j] == files[j];
    var t := Coalesce(Join(acc, f, key), key);
    forall c
      ensures c in t.columns <==> exists j :: 0 <= j < |all| && c in all[j].columns
    {
      if c in f.columns {
        assert all[n] == f;
      }
      if exists j :: 0 <= j < |all| && c in all[j].columns {
        var j :| 0 <= j < |all| && c in all[j].columns;
        if j < n {
          assert c in files[j].columns;
        }
      }
    }
  }

  /** Each cell of the joined and coalesced table is the maximum of its own file's group. */
  lemma StepValues(acc: Table, files: seq<Table>, f: Table, key: Column, t: Table, all: seq<Table>, j0: Table)
    requires |files| > 0
    requires Characterises(acc, files, key)
    requires all == files + [f] && Admissible(all, key)
    requires JoinSummary(acc, f, key, j0) && GroupMaxima(t, j0, key)
    ensures FileMaxima(t, all, key)
  {
    forall i, j, c | 0 <= i < |t.rows| && 0 <= j < |all| && c in all[j].columns && c != key
      ensures Lookup(t.rows[i], key).Some?
      ensures IsMaxOf(Lookup(t.rows[i], c), GroupValues(all[j].rows, key, Lookup(t.rows[i], key).value, c))
    {
      StepCell(acc, files, f, key, t, all, j0, i, j, c);
    }
  }

  /** One cell of the joined and coalesced table, in a column of file `j`. */
  lemma StepCell(acc: Table, files: seq<Table>, f: Table, key: Column, t: Table, all: seq<Table>, j0: Table,
                 i: nat, j: nat, c: Column)
    requires |files| > 0
    requires Characterises(acc, files, key)
    requires all == files + [f] && Admissible(all, key)
    requires JoinSummary(acc, f, key, j0) && GroupMaxima(t, j0, key)
    requires i < |t.rows| && j < |all| && c in all[j].columns && c != key
    ensures Lookup(t.rows[i], key).Some?
    ensures IsMaxOf(Lookup(t.rows[i], c), GroupValues(all[j].rows, key, Lookup(t.rows[i], key).value, c))
  {
    var n := |files|;
    var row := t.rows[i];
    assert c in j0.columns by {
      if j < n {
        assert all[j] == files[j];
      } else {
        assert all[n] == f;
      }
    }
    assert Lookup(row, key).Some? && IsMaxOf(Lookup(row, c), GroupValues(j0.rows, key, Lookup(row, key).value, c));
    var k := Lookup(row, key).value;
    if j == n {
      assert all[n] == f;
      assert c !in acc.columns by {
        forall j' | 0 <= j' < n
          ensures c !in files[j'].columns
        {
          assert all[j'] == files[j'];
        }
      }
    } else {
      assert all[j] == files[j];
      assert c !in f.columns by {
        assert all[n] == f;
      }
      AccumulatedMax(acc, files, key, j, k, c, Lookup(row, c));
    }
  }

  /**
   * The value theorem. For admissible files the merge succeeds and its result
   * is the table `Characterises` describes: one row per identifier in the union
   * of the files' identifiers, each non-identifier column holding the text
   * maximum of its file's non-missing values for that identifier, and missing
   * exactly when there is none.
   */
  lemma MergeAllCharacterised(files: seq<Table>, key: Column)
    requires |files| > 0 && Admissible(files, key)
    ensures MergeAll(files, key).Ok?
    ensures Characterises(MergeAll(files, key).value, files, key)
  {
    assert MergeAll(files, key) == Ok(Accumulate(files, key));
    AccumulateCharacterised(files, key);
  }

  /** The induction behind `MergeAllCharacterised`, one file at a time. */
  lemma {:induction false} AccumulateCharacterised(files: seq<Table>, key: Column)
    requires |files| > 0 && Admissible(files, key)
    ensures Characterises(Accumulate(files, key), files, key)
    decreases |files|
  {
    var n := |files| - 1;
    if n == 0 {
      assert files == [files[0]];
      FirstCharacterised(files[0], key);
    } else {
      var prefix := files[..n];
      assert files == prefix + [files[n]];
      assert Admissible(prefix, key);
      AccumulateCharacterised(prefix, key);
      StepCharacterised(Accumulate(prefix, key), prefix, files[n], key);
    }
  }

  /** The error names the first file without the identifier column. */
  lemma FirstMissingKeyColumn(files: seq<Table>, key: Column, i: nat)
    requires i < |files| && key !in files[i].columns
    requires forall j :: 0 <= j < i ==> key in files[j].columns
    ensures MergeAll(files, key) == Err(MissingKeyColumn(i))
  {
    var r := MergeAll(files, key);
    assert r.Err? && r.error.MissingKeyColumn?;
  }

  /** One more file: the accumulated table is joined with it and coalesced. */
  lemma AccumulateNext(files: seq<Table>, key: Column, i: nat)
    requires i < |files|
    ensures i == 0 ==> Accumulate(files[..i + 1], key) == Coalesce(files[0], key)
    ensures i > 0 ==> Accumulate(files[..i + 1], key) == Coalesce(Join(Accumulate(files[..i], key), files[i], key), key)
  {
    assert files[..i + 1][..i] == files[..i];
  }

  /** When every file has the identifier column, the merge yields the accumulated table. */
  lemma MergeAllOk(files: seq<Table>, key: Column)
    requires |files| > 0 && forall j :: 0 <= j < |files| ==> key in files[j].columns
    ensures MergeAll(files, key) == Ok(Accumulate(files, key))
  {
  }

  /**
   * merge.py:20-53. The loop over the files reassigns the accumulated table:
   * the first file initialises it, each later one is outer-joined to it, and
   * after each file the table is regrouped by `merge_rows`.
   */
  method IncrementalMerge(files: seq<Table>, key: Column) returns (result: Result<Table, MergeError>)
    ensures result == MergeAll(files, key)
  {
    var merged: Option<Table> := None;
    for i := 0 to |files|
      invariant merged.None? <==> i == 0
      invariant forall j :: 0 <= j < i ==> key in files[j].columns
      invariant i > 0 ==> merged.value == Accumulate(files[..i], key)
    {
      var current := files[i];
      if key !in current.columns {
        FirstMissingKeyColumn(files, key, i);
        return Err(MissingKeyColumn(i));
      }
      assert forall j :: 0 <= j < i + 1 ==> key in files[j].columns;
      var joined := if merged.None? then current else Join(merged.value, current, key);
      var coalesced := GroupByApply(joined, key);
      merged := Some(coalesced);
      assert coalesced == Accumulate(files[..i + 1], key) by {
        AccumulateNext(files, key, i);
      }
    }
    if merged.None? {
      return Err(NoInputFiles);
    }
    assert files[..|files|] == files;
    MergeAllOk(files, key);
    return Ok(merged.value);
  }
}
