/** The tables the helpers work on: named columns and rows of optional cells,
    with `None` standing for a missing value (pandas' NaN). */
module Frames {
  import opened Seqs

  datatype Option<T> = None | Some(value: T)

  /** One row: a cell per column, aligned with the table's column list. */
  type Row<V> = seq<Option<V>>

  datatype Table<V> = Table(columns: seq<string>, rows: seq<Row<V>>)

  /** Column names are unique and every row has one cell per column. */
  predicate WellFormed<V>(t: Table<V>) {
    NoDuplicates(t.columns) &&
    forall i :: 0 <= i < |t.rows| ==> |t.rows[i]| == |t.columns|
  }

  /** Position of the first column called `name`. */
  function IndexOf(names: seq<string>, name: string): (k: nat)
    requires name in names
    ensures k < |names| && names[k] == name
    ensures forall j :: 0 <= j < k ==> names[j] != name
  {
    if names[0] == name then 0 else 1 + IndexOf(names[1..], name)
  }

  /** The cell of row `i` under column `name`. */
  function Cell<V>(t: Table<V>, i: nat, name: string): Option<V>
    requires WellFormed(t) && i < |t.rows| && name in t.columns
  {
    t.rows[i][IndexOf(t.columns, name)]
  }

  /** pandas' `df[names]`: the table restricted to the listed columns, in the listed order. */
  function Select<V>(t: Table<V>, names: seq<string>): (r: Table<V>)
    requires WellFormed(t)
    requires forall n :: n in names ==> n in t.columns
    ensures r.columns == names && |r.rows| == |t.rows|
    ensures forall i :: 0 <= i < |r.rows| ==> |r.rows[i]| == |names|
    ensures forall i, k :: 0 <= i < |r.rows| && 0 <= k < |names| ==> r.rows[i][k] == Cell(t, i, names[k])
    ensures NoDuplicates(names) ==> WellFormed(r)
  {
    Table(names, seq(|t.rows|, i requires 0 <= i < |t.rows| =>
                   seq(|names|, k requires 0 <= k < |names| => Cell(t, i, names[k]))))
  }

  /** Selecting every column, in the table's own order, gives back the table. */
  lemma SelectAll<V>(t: Table<V>)
    requires WellFormed(t)
    ensures Select(t, t.columns) == t
  {
    var r := Select(t, t.columns);
    forall i | 0 <= i < |t.rows|
      ensures r.rows[i] == t.rows[i]
    {
      forall k | 0 <= k < |t.columns|
        ensures r.rows[i][k] == t.rows[i][k]
      {
        var j := IndexOf(t.columns, t.columns[k]);
        assert j == k;
      }
    }
  }
}
