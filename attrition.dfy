/** `calcular_desistentes`: the students listed in an earlier table but not in a later one. */
module Attrition {
  import opened Seqs
  import opened Frames

  /** The outcome of looking a column up: pandas raises `KeyError` for a missing one. */
  datatype Result<T> = Ok(value: T) | KeyError(column: string)

  /** `set(df[column])`: the distinct values of a column. Every row contributes
      its cell, nothing else is in the set, and repeated values (missing cells
      among them) count once, so there are at most as many values as rows. */
  function IdValues<V(==)>(t: Table<V>, column: string): (r: set<Option<V>>)
    requires WellFormed(t) && column in t.columns
    ensures forall i :: 0 <= i < |t.rows| ==> Cell(t, i, column) in r
    ensures forall v | v in r :: exists i :: 0 <= i < |t.rows| && Cell(t, i, column) == v
    ensures |r| <= |t.rows|
  {
    CellsBound(t, column, |t.rows|);
    set i | 0 <= i < |t.rows| :: Cell(t, i, column)
  }

  /** The cells of the first `n` rows take at most `n` distinct values. */
  lemma {:induction false} CellsBound<V>(t: Table<V>, column: string, n: nat)
    requires WellFormed(t) && column in t.columns && n <= |t.rows|
    ensures |set i | 0 <= i < n :: Cell(t, i, column)| <= n
  {
    if n > 0 {
      CellsBound(t, column, n - 1);
      var prev := set i | 0 <= i < n - 1 :: Cell(t, i, column);
      assert (set i | 0 <= i < n :: Cell(t, i, column)) == prev + {Cell(t, n - 1, column)};
    }
  }

  /** `list(s)`: the elements of a set, each once, in an order left unspecified. */
  ghost function ListOf<T>(s: set<T>): (xs: seq<T>)
    ensures |xs| == |s|
    ensures (set x | x in xs) == s
    ensures NoDuplicates(xs)
    decreases s
  {
    if s == {} then []
    else
      var x :| x in s;
      [x] + ListOf(s - {x})
  }

  /** `calcular_desistentes(prior, current, column)`: the identifiers present in
      `prior` and absent from `current`, each once; a missing column is a `KeyError`. */
  ghost function Dropouts<V>(prior: Table<V>, current: Table<V>, column: string): (r: Result<seq<Option<V>>>)
    requires WellFormed(prior) && WellFormed(current)
    ensures r.KeyError? <==> column !in prior.columns || column !in current.columns
    ensures r.KeyError? ==> r.column == column
    ensures r.Ok? ==> NoDuplicates(r.value)
    ensures r.Ok? ==> (set v | v in r.value) == IdValues(prior, column) - IdValues(current, column)
  {
    if column !in prior.columns || column !in current.columns then KeyError(column)
    else Ok(ListOf(IdValues(prior, column) - IdValues(current, column)))
  }

  /** The runnable `calcular_desistentes`: it turns the set difference into a
      list by taking out one element at a time, and meets `Dropouts`' promises. */
  method ListDropouts<V(==)>(prior: Table<V>, current: Table<V>, column: string) returns (r: Result<seq<Option<V>>>)
    requires WellFormed(prior) && WellFormed(current)
    ensures r.KeyError? <==> column !in prior.columns || column !in current.columns
    ensures r.KeyError? ==> r.column == column
    ensures r.Ok? ==> NoDuplicates(r.value)
    ensures r.Ok? ==> (set v | v in r.value) == IdValues(prior, column) - IdValues(current, column)
  {
    if column !in prior.columns || column !in current.columns {
      return KeyError(column);
    }
    var remaining := IdValues(prior, column) - IdValues(current, column);
    ghost var difference := remaining;
    var xs: seq<Option<V>> := [];
    while remaining != {}
      invariant NoDuplicates(xs)
      invariant (set x | x in xs) + remaining == difference
      invariant (set x | x in xs) !! remaining
      decreases remaining
    {
      var x :| x in remaining;
      assert (set y | y in xs + [x]) == (set y | y in xs) + {x};
      xs := xs + [x];
      remaining := remaining - {x};
    }
    return Ok(xs);
  }

  /** Nobody drops out when every earlier identifier is still present. */
  lemma NoDropoutsWhenRetained<V>(prior: Table<V>, current: Table<V>, column: string)
    requires WellFormed(prior) && WellFormed(current)
    requires column in prior.columns && column in current.columns
    requires IdValues(prior, column) <= IdValues(current, column)
    ensures Dropouts(prior, current, column) == Ok([])
  {
  }

  /** A student listed in the earlier table drops out exactly when no row of the
      later table carries the same identifier. */
  lemma DropoutIffAbsentLater<V>(prior: Table<V>, current: Table<V>, column: string, i: nat)
    requires WellFormed(prior) && WellFormed(current)
    requires column in prior.columns && column in current.columns
    requires i < |prior.rows|
    ensures Cell(prior, i, column) in Dropouts(prior, current, column).value <==>
            forall j :: 0 <= j < |current.rows| ==> Cell(current, j, column) != Cell(prior, i, column)
  {
    var v := Cell(prior, i, column);
    var r := Dropouts(prior, current, column).value;
    assert v in r <==> v in (set x | x in r);
    assert v in IdValues(prior, column);
    if v in IdValues(current, column) {
      var j :| 0 <= j < |current.rows| && Cell(current, j, column) == v;
    } else {
      forall j | 0 <= j < |current.rows|
        ensures Cell(current, j, column) != v
      {
        assert Cell(current, j, column) in IdValues(current, column);
      }
      assert v in IdValues(prior, column) - IdValues(current, column);
      assert v in (set x | x in r);
    }
  }

  /** The earlier roll of the example: Ana, Bruno and Carla. */
  function ExamplePrior(): Table<string> {
    Table(["NOME"], [[Some("Ana")], [Some("Bruno")], [Some("Carla")]])
  }

  /** The later roll of the example: Ana and Carla. */
  function ExampleCurrent(): Table<string> {
    Table(["NOME"], [[Some("Ana")], [Some("Carla")]])
  }

  /** The identifiers of the two example rolls. */
  lemma ExampleIds()
    ensures WellFormed(ExamplePrior()) && WellFormed(ExampleCurrent())
    ensures IdValues(ExamplePrior(), "NOME") == {Some("Ana"), Some("Bruno"), Some("Carla")}
    ensures IdValues(ExampleCurrent(), "NOME") == {Some("Ana"), Some("Carla")}
  {
    var prior, current := ExamplePrior(), ExampleCurrent();
    assert Cell(prior, 0, "NOME") == Some("Ana");
    assert Cell(prior, 1, "NOME") == Some("Bruno");
    assert Cell(prior, 2, "NOME") == Some("Carla");
    assert Cell(current, 0, "NOME") == Some("Ana");
    assert Cell(current, 1, "NOME") == Some("Carla");
  }

  /** Of the three students of the earlier roll, Bruno is the one who left. */
  lemma DropoutsExample()
    ensures Dropouts(ExamplePrior(), ExampleCurrent(), "NOME") == Ok([Some("Bruno")])
  {
    ExampleIds();
    var d := IdValues(ExamplePrior(), "NOME") - IdValues(ExampleCurrent(), "NOME");
    assert d == {Some("Bruno")};
    var r := Dropouts(ExamplePrior(), ExampleCurrent(), "NOME").value;
    assert |r| == 1;
    assert Some("Bruno") in (set x | x in r);
    assert r == [r[0]];
  }
}
