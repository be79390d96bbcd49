/** `filter_columns_multiple`: split a table's columns into one group per filter,
    each column going to the first filter (in list order) that occurs in its name. */
module ColumnPartitioner {
  import opened Strings
  import opened Seqs
  import opened Frames

  /** Index of the first filter that occurs in `column`, if any. */
  function FirstMatch(filters: seq<string>, column: string): (r: Option<nat>)
    ensures r.Some? ==> r.value < |filters| && Contains(column, filters[r.value])
    ensures r.Some? ==> forall k :: 0 <= k < r.value ==> !Contains(column, filters[k])
    ensures r.None? ==> forall k :: 0 <= k < |filters| ==> !Contains(column, filters[k])
    decreases |filters|
  {
    if filters == [] then None
    else if Contains(column, filters[0]) then Some(0)
    else match FirstMatch(filters[1..], column)
      case None => None
      case Some(k) => Some(k + 1)
  }

  /** The dictionary key under which `column` is filed: the first filter occurring in it. */
  function GroupKey(filters: seq<string>, column: string): Option<string> {
    match FirstMatch(filters, column)
    case None => None
    case Some(k) => Some(filters[k])
  }

  /** The column names filed under filter `f`, in the order of `columns`. */
  function Group(columns: seq<string>, filters: seq<string>, f: string): seq<string> {
    Filter(columns, (c: string) => GroupKey(filters, c) == Some(f))
  }

  /** The column names that contain at least one filter. */
  function Matched(columns: seq<string>, filters: seq<string>): seq<string> {
    Filter(columns, (c: string) => ContainsAny(c, filters))
  }

  /** Total number of columns filed under the filters `fs`. */
  function GroupSizes(columns: seq<string>, filters: seq<string>, fs: seq<string>): nat {
    if fs == [] then 0 else |Group(columns, filters, fs[0])| + GroupSizes(columns, filters, fs[1..])
  }

  /** A column's key is `f` exactly when `f` is some filter that occurs in the
      column and no earlier filter does. */
  lemma GroupKeyIsFirstMatch(filters: seq<string>, column: string, f: string)
    ensures GroupKey(filters, column) == Some(f) <==>
            exists j :: 0 <= j < |filters| && filters[j] == f && Contains(column, f) &&
                        forall k :: 0 <= k < j ==> !Contains(column, filters[k])
  {
  }

  /** A column has a key exactly when some filter occurs in it. */
  lemma GroupKeyIffMatches(filters: seq<string>, column: string)
    ensures GroupKey(filters, column).Some? <==> ContainsAny(column, filters)
  {
  }

  /** First-match membership: `c` is in the group of `f` iff `c` is an input column,
      `f` is a filter occurring in `c`, and no filter listed before `f` occurs in `c`. */
  lemma GroupMembership(columns: seq<string>, filters: seq<string>, f: string, c: string)
    ensures c in Group(columns, filters, f) <==>
            c in columns &&
            exists j :: 0 <= j < |filters| && filters[j] == f && Contains(c, f) &&
                        forall k :: 0 <= k < j ==> !Contains(c, filters[k])
  {
    GroupKeyIsFirstMatch(filters, c, f);
    if c in columns && GroupKey(filters, c) == Some(f) {
      var i :| 0 <= i < |columns| && columns[i] == c;
    }
  }

  /** No column is filed under two different filters. */
  lemma GroupsDisjoint(columns: seq<string>, filters: seq<string>, f: string, g: string, c: string)
    requires f != g
    ensures !(c in Group(columns, filters, f) && c in Group(columns, filters, g))
  {
  }

  /** The groups together hold exactly the input columns that contain some filter;
      a column that contains none lands in no group. */
  lemma GroupsCover(columns: seq<string>, filters: seq<string>, c: string)
    ensures (exists f :: f in filters && c in Group(columns, filters, f)) <==>
            c in columns && ContainsAny(c, filters)
  {
    GroupKeyIffMatches(filters, c);
    if c in columns && ContainsAny(c, filters) {
      var f := GroupKey(filters, c).value;
      var i :| 0 <= i < |columns| && columns[i] == c;
      assert c in Group(columns, filters, f);
    }
    if exists f :: f in filters && c in Group(columns, filters, f) {
      var f :| f in filters && c in Group(columns, filters, f);
      var gf := Group(columns, filters, f);
      var i :| 0 <= i < |gf| && gf[i] == c;
    }
  }

  /** A filter that occurs in no column name gets an empty group. */
  lemma GroupOfUnmatchedFilterIsEmpty(columns: seq<string>, filters: seq<string>, f: string)
    requires forall c :: c in columns ==> !Contains(c, f)
    ensures Group(columns, filters, f) == []
  {
    FilterNone(columns, (c: string) => GroupKey(filters, c) == Some(f));
  }

  /** Each group lists its columns in their input order. */
  lemma GroupKeepsOrder(columns: seq<string>, filters: seq<string>, f: string)
    ensures IsSubsequence(Group(columns, filters, f), columns)
  {
    FilterIsSubsequence(columns, (c: string) => GroupKey(filters, c) == Some(f));
  }

  /** Over duplicate-free filters, one more column adds one to the group sizes
      if it contains a filter and nothing otherwise. */
  lemma {:induction false} GroupSizesSnoc(columns: seq<string>, filters: seq<string>, fs: seq<string>, c: string)
    requires NoDuplicates(fs)
    ensures GroupSizes(columns + [c], filters, fs) ==
            GroupSizes(columns, filters, fs) +
            (if GroupKey(filters, c).Some? && GroupKey(filters, c).value in fs then 1 else 0)
    decreases |fs|
  {
    if fs != [] {
      FilterSnoc(columns, c, (x: string) => GroupKey(filters, x) == Some(fs[0]));
      assert NoDuplicates(fs[1..]);
      GroupSizesSnoc(columns, filters, fs[1..], c);
      if GroupKey(filters, c) == Some(fs[0]) {
        assert fs[0] !in fs[1..];
      }
      assert forall x :: x in fs <==> x == fs[0] || x in fs[1..];
    }
  }

  /** With duplicate-free filters, the group sizes add up to the number of
      input columns that contain at least one filter. */
  lemma {:induction false} GroupSizesSum(columns: seq<string>, filters: seq<string>)
    requires NoDuplicates(filters)
    ensures GroupSizes(columns, filters, filters) == |Matched(columns, filters)|
    decreases |columns|
  {
    if columns == [] {
      GroupSizesOfEmpty(filters, filters);
    } else {
      var init, c := columns[..|columns| - 1], columns[|columns| - 1];
      assert columns == init + [c];
      GroupSizesSum(init, filters);
      GroupSizesSnoc(init, filters, filters, c);
      FilterSnoc(init, c, (x: string) => ContainsAny(x, filters));
      GroupKeyIffMatches(filters, c);
      if GroupKey(filters, c).Some? {
        var k := FirstMatch(filters, c).value;
        assert GroupKey(filters, c).value == filters[k];
      }
    }
  }

  /** No columns, no grouped columns. */
  lemma {:induction false} GroupSizesOfEmpty(filters: seq<string>, fs: seq<string>)
    ensures GroupSizes([], filters, fs) == 0
    decreases |fs|
  {
    if fs != [] {
      GroupSizesOfEmpty(filters, fs[1..]);
    }
  }

  /** Columns `NOME`, `MAT_2020`, `MAT_2021` split by year: each year gets its own
      column and the identifier column lands in neither group. */
  lemma PartitionExample()
    ensures Group(["NOME", "MAT_2020", "MAT_2021"], ["2020", "2021"], "2020") == ["MAT_2020"]
    ensures Group(["NOME", "MAT_2020", "MAT_2021"], ["2020", "2021"], "2021") == ["MAT_2021"]
  {
    ExampleKeys();
    ExampleGroup("2020");
    ExampleGroup("2021");
  }

  /** The example's group of `f`, built one column at a time. */
  lemma ExampleGroup(f: string)
    ensures Group(["NOME", "MAT_2020", "MAT_2021"], ["2020", "2021"], f) ==
            (if GroupKey(["2020", "2021"], "MAT_2020") == Some(f) then ["MAT_2020"] else []) +
            (if GroupKey(["2020", "2021"], "MAT_2021") == Some(f) then ["MAT_2021"] else [])
  {
    var filters := ["2020", "2021"];
    ExampleKeys();
    assert ["NOME", "MAT_2020", "MAT_2021"] == ["NOME", "MAT_2020"] + ["MAT_2021"];
    assert ["NOME", "MAT_2020"] == ["NOME"] + ["MAT_2020"];
    assert ["NOME"] == [] + ["NOME"];
    GroupSnoc([], filters, "NOME", f);
    GroupSnoc(["NOME"], filters, "MAT_2020", f);
    GroupSnoc(["NOME", "MAT_2020"], filters, "MAT_2021", f);
  }

  /** The keys of the example's columns: `NOME` has none, each year column its own year. */
  lemma ExampleKeys()
    ensures GroupKey(["2020", "2021"], "NOME") == None
    ensures GroupKey(["2020", "2021"], "MAT_2020") == Some("2020")
    ensures GroupKey(["2020", "2021"], "MAT_2021") == Some("2021")
  {
    var filters := ["2020", "2021"];
    assert filters[0] == "2020" && filters[1] == "2021";
    ExampleMatches();
    GroupKeyIffMatches(filters, "NOME");
    GroupKeyIsFirstMatch(filters, "MAT_2020", "2020");
    GroupKeyIsFirstMatch(filters, "MAT_2021", "2021");
  }

  /** Which year occurs in which of the example's column names. */
  lemma ExampleMatches()
    ensures !Contains("NOME", "2020") && !Contains("NOME", "2021")
    ensures Contains("MAT_2020", "2020")
    ensures !Contains("MAT_2021", "2020") && Contains("MAT_2021", "2021")
  {
    assert StartsWith("2020", "2020");
    assert StartsWith("2021", "2021");
  }

  /** `filtered` holds, under each filter, the group of `columns` filed under it. */
  ghost predicate Filed(filtered: map<string, seq<string>>, columns: seq<string>, filters: seq<string>) {
    (filtered.Keys == set f | f in filters) &&
    forall f :: f in filters ==> filtered[f] == Group(columns, filters, f)
  }

  /** Filing one more column changes only the group of its key. */
  lemma GroupSnoc(columns: seq<string>, filters: seq<string>, c: string, f: string)
    ensures Group(columns + [c], filters, f) ==
            if GroupKey(filters, c) == Some(f) then Group(columns, filters, f) + [c]
            else Group(columns, filters, f)
  {
  }

  /** The inner loop's `append` followed by `break`: the column goes to the first filter it contains. */
  lemma FileUnderFirstMatch(filtered: map<string, seq<string>>, columns: seq<string>, filters: seq<string>, c: string, j: nat)
    requires Filed(filtered, columns, filters)
    requires j < |filters| && Contains(c, filters[j])
    requires forall k :: 0 <= k < j ==> !Contains(c, filters[k])
    ensures Filed(filtered[filters[j] := filtered[filters[j]] + [c]], columns + [c], filters)
  {
  }

  /** The inner loop running out of filters: the column is filed nowhere. */
  lemma FileNowhere(filtered: map<string, seq<string>>, columns: seq<string>, filters: seq<string>, c: string)
    requires Filed(filtered, columns, filters)
    requires forall k :: 0 <= k < |filters| ==> !Contains(c, filters[k])
    ensures Filed(filtered, columns + [c], filters)
  {
  }

  /** `filter_columns_multiple(df, filters)`: one entry per filter, holding `df`
      restricted to the columns filed under that filter. */
  method FilterColumnsMultiple<V>(t: Table<V>, filters: seq<string>) returns (result: map<string, Table<V>>)
    requires WellFormed(t)
    ensures result.Keys == set f | f in filters
    ensures forall f :: f in filters ==> result[f] == Select(t, Group(t.columns, filters, f))
  {
    var filtered: map<string, seq<string>> := map f | f in filters :: [];
    for i := 0 to |t.columns|
      invariant Filed(filtered, t.columns[..i], filters)
    {
      var column := t.columns[i];
      assert t.columns[..i + 1] == t.columns[..i] + [column];
      ghost var placed := false;
      for j := 0 to |filters|
        invariant !placed
        invariant forall k :: 0 <= k < j ==> !Contains(column, filters[k])
        invariant Filed(filtered, t.columns[..i], filters)
      {
        if Contains(column, filters[j]) {
          FileUnderFirstMatch(filtered, t.columns[..i], filters, column, j);
          filtered := filtered[filters[j] := filtered[filters[j]] + [column]];
          placed := true;
          break;
        }
      }
      if !placed {
        FileNowhere(filtered, t.columns[..i], filters, column);
      }
    }
    assert t.columns[..|t.columns|] == t.columns;
    result := map f | f in filtered :: Select(t, filtered[f]);
  }
}
