# Incremental CSV merge, modelled in Dafny

`merge.py` merges a folder of CSV files that share an identifier column
(`SEQN`). Its core is `incremental_merge` (merge.py:20-53). It folds the files
into one accumulated table:

- The first file starts the table.
- Each later file is outer-joined to the table on the identifier column.
- After every file the table is regrouped by identifier. The nested
  `merge_rows` turns each group of rows into one row. It keeps the first row
  and overwrites every non-identifier column with the largest non-missing
  value of the group, or with a missing value when there is none.

Every cell is read as text (`dtype=str`), so "largest" means Python's string
order, code point by code point. In that order "10" sorts before "9".

The model has seven modules:

- `Wrappers`: `Option` and `Result`.
- `LexOrder`: Python's string order on `seq<char>` (`LexLess`, `LexLe`,
  `LexMax`). Lemmas prove it is a strict total order.
- `Tables`: a data frame as `Table(columns, rows)`.
  - A row maps column names to cells; `None` is a missing value (NaN).
  - `Matching` is the group of an identifier.
  - `KeySet` is the set of identifiers present.
  - `GroupValues` is the set of non-missing values of one group in one column.
- `Coalescing`: `merge_rows` and the group-by-apply.
  - `MergeRows` is the loop over the columns. `MergedRow` specifies it.
  - `GroupByApply` is the loop over the sorted groups. `Coalesce` specifies it.
  - Lemmas give the cell-by-cell meaning of both, and prove that coalescing is
    idempotent.
- `OuterJoin`: `pd.merge(..., how='outer')` on the identifier column, with
  lemmas for its identifiers, its values and its well-formedness.
- `Merge`:
  - `IncrementalMerge`, the loop over the files. `MergeAll` and `Accumulate`
    specify it.
  - The error cases.
  - The identifier theorem: one row per identifier of any file, in ascending
    order, so the printed row count never decreases.
  - The value theorem `MergeAllCharacterised`. Each cell of the result is the
    text maximum of its own file's values for that identifier.
- `MergeExample`: two small files merged. The identifier `one` ends up with
  `x` = `nine`, because `ten` sorts before `nine` in the worked case ("10"
  and "9").

The single parameter `key` stands for both `identifier_column` (merge.py:8,
used in the join at merge.py:34) and the literal `'SEQN'` (merge.py:40 and
merge.py:46). The two are the same string in the script.

## Model

| member | source | states |
|---|---|---|
| Merge.IncrementalMerge | merge.py:20-53 | The loop over the files returns exactly `MergeAll`. Its invariant: after `i` files the table is `Accumulate` of the first `i` files, and every file so far has the identifier column. A file without it ends the loop with that file's error. |
| Merge.MergeAll | merge.py:20-53 | An empty list gives exactly `Err(NoInputFiles)`, and no other list gives that error. A non-empty list succeeds iff every file has the identifier column, and a success carries `Accumulate` of all the files. A missing-column error names a file that lacks the column, and every earlier file has it. |
| Merge.FirstMissing | merge.py:28-34 | Returns an index only for a file without the identifier column, all of whose predecessors have it. Returns none only when every file has the column. |
| Merge.FirstMissingKeyColumn | merge.py:28-34 | When file `i` is the first without the identifier column, the merge fails with `MissingKeyColumn(i)`. |
| Merge.MergeAllOk | merge.py:24-47 | When every file of a non-empty list has the identifier column, the merge yields the accumulated table. |
| Merge.Accumulate | merge.py:24-47 | The table after the first `i` files, defined from the back: the first file coalesced, each later file joined and then coalesced. It has no ensures of its own; `Merge.AccumulateNext`, `Merge.AccumulateKeys` and `Merge.AccumulateCharacterised` characterise it. |
| Merge.AccumulateNext | merge.py:30-47 | A proof helper that unfolds `Accumulate` by one file. Its case `i == 0` carries the property that the first file is only coalesced, not joined (merge.py:30-31). A later file is outer-joined to the table so far, then coalesced. |
| Merge.AccumulateAscending | merge.py:46-47 | After any number of files, every row has an identifier and the identifiers strictly ascend. |
| Merge.AccumulateKeySet | merge.py:34-47 | After any number of files, the table's identifiers are exactly the union of the identifiers of those files. |
| Merge.AccumulateKeys | merge.py:34-47 | After any number of files there is exactly one row per identifier seen so far, in ascending order. |
| Merge.MergeAllKeys | merge.py:20-53 | A successful merge has exactly one row per identifier of any file, in ascending order; rows with a missing identifier are gone. |
| Merge.RowCountNeverDecreases | merge.py:46-48 | The row count printed after each file never decreases from one file to the next. |
| Merge.CellMax | merge.py:36-47 | A proof helper that unfolds `Characterises` for one cell: in a table that the files characterise, a cell in a column of file `j` is the maximum of that file's group values. |
| Merge.AccumulatedMax | merge.py:36-47 | Coalescing again keeps an earlier file's maximum. An identifier's group maximum in the accumulated table is also the maximum of that file's group. |
| Merge.FirstCharacterised | merge.py:30-47 | The first file coalesced alone has that file's columns, identifiers and group maxima. |
| Merge.StepColumns | merge.py:34 | After a join, the columns are those of all files so far plus the new file's. |
| Merge.StepCell | merge.py:34-47 | After join and coalesce, a cell in a column of file `j` is the maximum of file `j`'s group; for the new file, of the new file's group. |
| Merge.StepValues | merge.py:34-47 | The cell property of `StepCell` holds for every row, file and column. |
| Merge.StepCharacterised | merge.py:32-47 | If the table so far is characterised by the earlier files, joining and coalescing one more admissible file gives a table characterised by all of them. |
| Merge.AccumulateCharacterised | merge.py:24-47 | By induction over the files, the accumulated table is characterised by all the files. |
| Merge.MergeAllCharacterised | merge.py:20-53 | For files that each have the identifier column, are well formed and share no other column, the merge succeeds. Its result has the union of their columns and one row per identifier, in ascending order. In each row, each column holds the text maximum of its file's non-missing values for that identifier, or is missing when there is none. |
| Coalescing.PresentValues | merge.py:42 | `dropna()` on a group's column: exactly the non-missing values of that column. |
| Coalescing.MaxOf | merge.py:42 | `max()` over a non-empty list of strings returns an element of the list that no element exceeds in text order. |
| Coalescing.MaxPresent | merge.py:42 | The coalesced cell is missing iff every value in the group is missing. Otherwise it is a value from the group that no value in the group exceeds. |
| Coalescing.MaxPresentOfGroup | merge.py:42 | The coalesced cell of an identifier's group is the maximum of the set of that group's values. |
| Coalescing.IsMaxOfUnique | merge.py:42 | A set of strings has at most one maximum, so the coalesced value is determined. |
| Coalescing.MergedRowCells | merge.py:36-43 | `merge_rows` keeps the first row's columns and identifier, plus every non-identifier column of the frame. Each non-identifier column holds the group's maximum. Any other column keeps the first row's value. |
| Coalescing.MergedRowStep | merge.py:39-42 | A proof helper that unfolds `MergedRow` by one column: visiting one more column overwrites it with its maximum, or leaves the row as it is for the identifier column. |
| Coalescing.MergeRows | merge.py:36-43 | The column loop of `merge_rows` returns `MergedRow`. The loop invariant says that after `i` columns the row is the merge over the first `i` columns. |
| Coalescing.MergeSingleRow | merge.py:36-43 | A group whose rows all equal one row that has every column merges back to that row. |
| Coalescing.Insert | merge.py:46 | Inserting into a strictly ascending key list keeps it strictly ascending, with the new key added and nothing else. |
| Coalescing.MergedRow | merge.py:36-43 | `merge_rows` as a fold over the frame's columns. It has no ensures of its own; `Coalescing.MergedRowCells` states its meaning cell by cell and `Coalescing.MergeRows` proves the loop computes it. |
| Coalescing.GroupRows | merge.py:46 | The group-by-apply: one merged row per key of the list. Its only ensures is that there are as many rows as keys; `Coalescing.GroupRowsAt` states what each row is. |
| Coalescing.Coalesce | merge.py:46-47 | `groupby('SEQN').apply(merge_rows)` followed by `reset_index`. It has no ensures of its own; `Coalescing.CoalesceCorrect`, `Coalescing.CoalescedRow` and `Coalescing.CoalesceIdempotent` characterise it. |
| Coalescing.SortedKeys | merge.py:46 | The group keys of `groupby`: strictly ascending in text order, and exactly the identifiers present. Missing identifiers form no group. |
| Coalescing.GroupNonEmpty | merge.py:46 | The group of an identifier that occurs in the rows is not empty. |
| Coalescing.GroupRowsAt | merge.py:46 | The `i`-th row of the grouped result is `merge_rows` applied to the group of the `i`-th key, and that group is not empty. |
| Coalescing.GroupByApply | merge.py:46-47 | The loop over the sorted groups, calling `merge_rows` once per group and stacking the results, returns `Coalesce`. |
| Coalescing.CoalescedRow | merge.py:46-47 | Row `i` of a coalesced table carries the `i`-th sorted key. Its non-identifier columns hold their group maxima. It has exactly the table's columns. |
| Coalescing.CoalesceAscending | merge.py:46-47 | In a coalesced table every row has an identifier and the identifiers strictly ascend. |
| Coalescing.CoalesceKeySet | merge.py:46-47 | Coalescing keeps exactly the identifiers present in the input. |
| Coalescing.RowKeys | merge.py:46-47 | Rows whose identifiers are the key list, position by position, carry exactly those keys. |
| Coalescing.CoalesceValues | merge.py:46-47 | Each non-identifier cell of a coalesced table is the maximum of its identifier's group in the input. |
| Coalescing.CoalesceWellFormed | merge.py:46-47 | Coalescing a table whose rows have exactly its columns gives such a table again. |
| Coalescing.CoalesceCorrect | merge.py:46-47 | Coalescing keeps the columns, and it sorts and deduplicates the identifiers. It fills each cell with its group maximum and preserves well-formedness. |
| Coalescing.CoalescedKeyKept | merge.py:46 | Every group key of the input is a group key of the coalesced table. |
| Coalescing.CoalescedKeyOrigin | merge.py:46 | Every group key of the coalesced table is a group key of the input. |
| Coalescing.CoalescedKeys | merge.py:46 | A coalesced table has the same sorted group keys as its input. |
| Coalescing.CoalescedRowStable | merge.py:36-47 | Coalescing a coalesced table leaves each of its rows unchanged. |
| Coalescing.CoalesceIdempotent | merge.py:46-47 | Coalescing an already coalesced table changes nothing: coalescing twice is the same as coalescing once. That earlier files' maxima survive each later join and regrouping is a separate fact, proved by `Merge.AccumulatedMax` and `Merge.StepCell`. |
| Tables.Matching | merge.py:46 | The group of an identifier: exactly the rows carrying it, and no more rows than the input. |
| Tables.AscendingKeysUnique | merge.py:46 | Strictly ascending identifiers are pairwise distinct, so there are as many rows as identifiers. |
| Tables.KeySetCardinality | merge.py:46-48 | Rows with pairwise distinct identifiers have as many identifiers as rows. |
| Tables.AscendingGroup | merge.py:46 | With ascending identifiers, each row is the only member of its group. |
| Tables.AscendingGroupValues | merge.py:46 | With ascending identifiers, a group's values in a column are the single row's value, or none when it is missing. |
| OuterJoin.Join | merge.py:34 | `pd.merge(..., on=identifier_column, how='outer')` as the left rows followed by the right-only rows. It has no ensures of its own; `OuterJoin.JoinKeys`, `OuterJoin.JoinLeftValues`, `OuterJoin.JoinRightValues` and `OuterJoin.JoinWellFormed` characterise it. |
| OuterJoin.JoinRow | merge.py:34 | A left row paired with a right row of equal identifier. It has no ensures of its own; `OuterJoin.LookupJoinRow` states its cells. |
| OuterJoin.PadRight | merge.py:34 | A left row without a right partner, with the right side's non-identifier columns missing. It has no ensures of its own; `OuterJoin.LookupPadRight` states its cells. |
| OuterJoin.PadLeft | merge.py:34 | A right row without a left partner, with the left side's other columns missing. It has no ensures of its own; `OuterJoin.LookupPadLeft` states its cells. |
| OuterJoin.LeftRows | merge.py:34 | Each left row paired with every right row of equal identifier, or padded when there is none. It has no ensures of its own; `OuterJoin.LeftRowsOrigin` and `OuterJoin.LeftRowsComplete` characterise it. |
| OuterJoin.RightOnlyRows | merge.py:34 | The right rows whose identifier no left row has, padded. It has no ensures of its own; `OuterJoin.RightOnlyRowsOrigin` and `OuterJoin.RightOnlyRowsComplete` characterise it. |
| OuterJoin.NonKey | merge.py:34 | The right side's columns other than the identifier are the ones the join appends. |
| OuterJoin.LeftRowsOrigin | merge.py:34 | Each left-side row of the join comes from a left row. It is either paired with a right row of equal identifier or padded with missing cells. |
| OuterJoin.LeftRowsComplete | merge.py:34 | Every left row appears paired with each right row of equal identifier, or padded when it has none. |
| OuterJoin.RightOnlyRowsOrigin | merge.py:34 | Each right-only row of the join is a right row padded with missing left cells. |
| OuterJoin.RightOnlyRowsComplete | merge.py:34 | Every right row without a left partner appears, padded with missing left cells. |
| OuterJoin.LookupJoinRow | merge.py:34 | A paired row reads the right row's cell in the right side's non-identifier columns and the left row's cell elsewhere. |
| OuterJoin.LookupPadRight | merge.py:34 | A padded left row is missing in the right side's columns and otherwise reads the left row. |
| OuterJoin.LookupPadLeft | merge.py:34 | A padded right row reads the right row in every column. |
| OuterJoin.JoinedKey | merge.py:34 | A joined row keeps its left row's identifier, which equals its partner's. |
| OuterJoin.JoinKeys | merge.py:34 | The outer join's identifiers are the union of both sides' identifiers. |
| OuterJoin.JoinLeftValues | merge.py:34 | In a column only the left side has, each identifier's values after the join are the left side's. |
| OuterJoin.JoinRightValues | merge.py:34 | In a column only the right side has, each identifier's values after the join are the right side's. |
| OuterJoin.JoinWellFormed | merge.py:34 | Joining two tables whose rows have exactly their columns gives a table whose rows have exactly its columns. |
| OuterJoin.JoinSummaryHolds | merge.py:34 | The join of two well-formed tables has both sides' columns and, in a column of one side only, that side's values. |
| LexOrder.LexLess | merge.py:42 | Python's `<` on strings, code point by code point, a proper prefix first. It has no ensures of its own; the `LexOrder` lemmas below prove it a strict total order. |
| LexOrder.LexMax | merge.py:42 | The larger of two strings in text order is one of them, and neither exceeds it. |
| LexOrder.LexIrreflexive | merge.py:42 | No string sorts before itself. |
| LexOrder.LexAsymmetric | merge.py:42 | Two strings never sort before each other. |
| LexOrder.LexTransitive | merge.py:42 | Text order is transitive. |
| LexOrder.LexTotal | merge.py:42 | Any two distinct strings are ordered one way or the other. |
| LexOrder.LexLeAntisymmetric | merge.py:42 | Two strings that do not exceed each other are equal. |
| LexOrder.LexLeTransitive | merge.py:42 | "Does not exceed" is transitive. |
| LexOrder.NineAfterTen | merge.py:42 | "10" sorts before "9", so the maximum of "10" and "9" is "9". |
| MergeExample.FirstRowX | merge.py:42 | A cell that is the maximum of the group {`ten`, `nine`} is `nine`. |
| MergeExample.SecondRowX | merge.py:42 | A cell whose group has no values in that file is missing. |
| MergeExample.ExampleKeys | merge.py:34-46 | The two example files together carry exactly the identifiers `one` and `two`. |
| MergeExample.TwoFiles | merge.py:20-53 | Merging the two example files succeeds with exactly two rows. The first is (`one`, `x` = `nine`, `y` = `foo`); the second is (`two`, `x` missing, `y` = `bar`). |
| MergeExample.SeqnExample | merge.py:8 | The concrete names (`SEQN`, `X`, `Y`, "1", "2", "10", "9") meet the example's assumptions, so `TwoFiles` covers that data. |

## Left out

- The script around the function is not modelled: the folder glob and the early `exit` on an empty folder (merge.py:11-15), `read_csv` (merge.py:28), the progress `print`s, the `try`/`except` and `to_csv` (merge.py:55-65), and `del` (merge.py:51). Reading a file is modelled as receiving its table.
- The empty file list: `incremental_merge([])` returns `None`. The script never calls it that way, because it exits first. The model returns `Err(NoInputFiles)` for it.
- Pandas exceptions are modelled only as `MissingKeyColumn(i)`, for the first file without the identifier column. That file makes `groupby` (first file) or `merge` (later files) raise `KeyError`.
- The code performs an outer join (`how='outer'`) even though the comments say "inner join". The model follows the code.
- The row order of the outer join is not modelled. The `groupby` that follows sorts by identifier, so the order of the merged table does not depend on it.
- When two files share a non-identifier column, pandas keeps both copies, renamed with `_x` and `_y` suffixes. The model keeps one column instead. For a matched identifier, `JoinRow` lets the right row's value win. For a left row without a partner in the later file, `PadRight` sets the shared column to missing (`OuterJoin.LookupPadRight`), so the earlier file's value for that identifier is erased. Pandas would keep it in the `_x` column. Only the value theorem's `Admissible` files, which share no such column, are modelled faithfully.
- Merge.MergeAllCharacterised: proved only for files that share no column other than the identifier (`Admissible`), because the suffixed columns are not modelled.
- Merge.IncrementalMerge: its contract is equality with `MergeAll`. The identifier and value properties are proved about `MergeAll` in the lemmas above.
- NaN is modelled as `None`. `read_csv` keeps its default NA handling even with `dtype=str`, so an empty field and markers such as `NA`, `NaN` or `null` arrive as NaN. The model does not parse text, so it accepts any cell, including `Some("")` and `Some("NA")`, which `read_csv` would never produce; the proved properties hold for those tables too. Pandas' special cases for an empty group-by result (an empty frame without columns) are not modelled.
- Python compares strings by Unicode code point. The model compares Dafny `char`s, which are Unicode scalar values, so the orders agree.
- Memory behaviour (`low_memory`, chunking, freeing frames) has no counterpart in the model.
