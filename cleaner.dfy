/** `cleaning_dataset`: drop the rows that carry no data outside the identifier column. */
module RowCleaner {
  import opened Seqs
  import opened Frames

  /** The identifier column, the student's name. */
  const ID_COLUMN := "NOME"

  /** Some column other than the identifier holds a value in `row`
      (what `dropna(subset=columns.difference(['NOME']), how='all')` keeps).
      Such a row is never all missing, and over no non-identifier column there
      is no value, so the row is dropped. */
  function HasValueOutsideId<V>(columns: seq<string>, row: Row<V>): (r: bool)
    ensures r ==> !AllMissing(row)
    ensures (forall k :: 0 <= k < |columns| ==> columns[k] == ID_COLUMN) ==> !r
  {
    exists k :: 0 <= k < |row| && k < |columns| && columns[k] != ID_COLUMN && row[k].Some?
  }

  /** Every cell of `row` is missing (what `isna().all(axis=1)` flags):
      the row is a row of `None`s of its own length. */
  function AllMissing<V>(row: Row<V>): (r: bool)
    ensures r <==> row == seq(|row|, _ => None)
  {
    forall k :: 0 <= k < |row| ==> row[k].None?
  }

  /** The one-stage reading: the rows that have a value outside the identifier column. */
  function RowsWithData<V>(t: Table<V>): seq<Row<V>> {
    Filter(t.rows, (row: Row<V>) => HasValueOutsideId(t.columns, row))
  }

  /** `cleaning_dataset(df)`: both stages as the code runs them; the second stage
      never drops anything the first one kept. */
  function CleaningDataset<V>(t: Table<V>): (r: Table<V>)
    ensures r.columns == t.columns
    ensures r.rows == RowsWithData(t)
  {
    var stage1 := RowsWithData(t);
    FilterImplied(t.rows, (row: Row<V>) => HasValueOutsideId(t.columns, row), (row: Row<V>) => !AllMissing(row));
    Table(t.columns, Filter(stage1, (row: Row<V>) => !AllMissing(row)))
  }

  /** Kept rows stay in their original order, and exactly the rows with a value
      outside the identifier column are kept. */
  lemma CleaningKeepsRowsWithData<V>(t: Table<V>)
    ensures IsSubsequence(CleaningDataset(t).rows, t.rows)
    ensures forall row :: row in CleaningDataset(t).rows <==> row in t.rows && HasValueOutsideId(t.columns, row)
  {
    var p := (row: Row<V>) => HasValueOutsideId(t.columns, row);
    FilterIsSubsequence(t.rows, p);
    var r := CleaningDataset(t).rows;
    assert r == Filter(t.rows, p);
    forall row
      ensures row in r <==> row in t.rows && HasValueOutsideId(t.columns, row)
    {
      if row in r {
        var i :| 0 <= i < |r| && r[i] == row;
      }
      if row in t.rows && HasValueOutsideId(t.columns, row) {
        var i :| 0 <= i < |t.rows| && t.rows[i] == row;
      }
    }
  }

  /** Cleaning preserves the table's shape. */
  lemma CleaningPreservesWellFormed<V>(t: Table<V>)
    requires WellFormed(t)
    ensures WellFormed(CleaningDataset(t))
  {
  }

  /** Cleaning an already cleaned table changes nothing. */
  lemma CleaningIdempotent<V>(t: Table<V>)
    ensures CleaningDataset(CleaningDataset(t)) == CleaningDataset(t)
  {
    var p := (row: Row<V>) => HasValueOutsideId(t.columns, row);
    FilterImplied(t.rows, p, p);
  }
}
