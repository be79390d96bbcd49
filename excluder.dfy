/** `filter_columns`: drop every column whose name contains one of the exclusion patterns. */
module ColumnExcluder {
  import opened Strings
  import opened Seqs
  import opened Frames

  /** The column names that contain none of the patterns, in their input order. */
  function Kept(columns: seq<string>, filters: seq<string>): seq<string> {
    Filter(columns, (c: string) => !ContainsAny(c, filters))
  }

  /** pandas' boolean indexing `columns[mask]`: the names whose mask entry is true. */
  function Masked(columns: seq<string>, mask: seq<bool>): (r: seq<string>)
    requires |mask| == |columns|
    ensures |r| <= |columns|
    ensures IsSubsequence(r, columns)
    ensures forall i :: 0 <= i < |columns| && mask[i] ==> columns[i] in r
    ensures forall k :: 0 <= k < |r| ==> r[k] in columns
    ensures (forall i :: 0 <= i < |mask| ==> mask[i]) ==> r == columns
    ensures (forall i :: 0 <= i < |mask| ==> !mask[i]) ==> r == []
    decreases |columns|
  {
    if columns == [] then []
    else
      var n := |columns| - 1;
      assert columns[..n] + [columns[n]] == columns;
      if mask[n] then Masked(columns[..n], mask[..n]) + [columns[n]] else Masked(columns[..n], mask[..n])
  }

  /** The mask that is false exactly at the excluded columns selects `Kept`. */
  lemma {:induction false} MaskedIsKept(columns: seq<string>, filters: seq<string>, mask: seq<bool>)
    requires |mask| == |columns|
    requires forall k :: 0 <= k < |columns| ==> mask[k] == !ContainsAny(columns[k], filters)
    ensures Masked(columns, mask) == Kept(columns, filters)
    decreases |columns|
  {
    if columns != [] {
      var n := |columns| - 1;
      MaskedIsKept(columns[..n], filters, mask[..n]);
      assert columns == columns[..n] + [columns[n]];
      FilterSnoc(columns[..n], columns[n], (c: string) => !ContainsAny(c, filters));
    }
  }

  /** With no patterns nothing is excluded. */
  lemma KeptWithoutFilters(columns: seq<string>)
    ensures Kept(columns, []) == columns
  {
    FilterAll(columns, (c: string) => !ContainsAny(c, []));
  }

  /** `filter_columns(df, filters)`: the table restricted to the columns whose
      name contains no pattern, in their original order. */
  method FilterColumns<V>(t: Table<V>, filters: seq<string>) returns (r: Table<V>)
    requires WellFormed(t)
    ensures r == Select(t, Kept(t.columns, filters))
    ensures forall c :: c in r.columns <==> c in t.columns && !ContainsAny(c, filters)
    ensures IsSubsequence(r.columns, t.columns)
    ensures WellFormed(r)
    ensures filters == [] ==> r == t
  {
    var n := |t.columns|;
    var selected := new bool[n](_ => true);
    for index := 0 to n
      invariant forall k :: 0 <= k < index ==> selected[k] == !ContainsAny(t.columns[k], filters)
      invariant forall k :: index <= k < n ==> selected[k]
    {
      if ContainsAny(t.columns[index], filters) {
        selected[index] := false;
      }
    }
    MaskedIsKept(t.columns, filters, selected[..]);
    var names := Masked(t.columns, selected[..]);
    FilterIsSubsequence(t.columns, (c: string) => !ContainsAny(c, filters));
    FilterNoDuplicates(t.columns, (c: string) => !ContainsAny(c, filters));
    if filters == [] {
      KeptWithoutFilters(t.columns);
      SelectAll(t);
    }
    r := Select(t, names);
  }
}
