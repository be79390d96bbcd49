# Student-record table helpers, modelled in Dafny

This project models the column- and row-selection helpers of a small
collection of pandas utilities used to analyse student-record spreadsheets
across academic years (`cor_funcoes.py`). Four helpers are modelled:

- the **column partitioner** `filter_columns_multiple`. It files each column
  under the first filter (in list order) that occurs in the column's name; a
  column that contains no filter goes into no group. It returns one table per
  filter.
- the **column excluder** `filter_columns`. It keeps the columns whose name
  contains none of the exclusion patterns.
- the **row cleaner** `cleaning_dataset`. It drops rows that hold no value
  outside the identifier column `NOME`.
- the **attrition detector** `calcular_desistentes`. It lists the identifiers
  present in an earlier table and absent from a later one.

A table is the datatype `Frames.Table`. It holds a list of column names and
rows of `Option` cells, one cell per column, with `None` standing for pandas'
missing value (NaN). `Frames.Select` is pandas' `df[names]`. Python's substring
test `p in s` is `Strings.Contains`. Every selection in the source keeps input
order. The partitioner's groups, the excluder's kept columns and the cleaner's
kept rows are specified with the generic `Seqs.Filter`. Boolean indexing by the
excluder's mask is its own recursion, `ColumnExcluder.Masked`, proved equal to
the specification `Kept` by `MaskedIsKept`. `Frames.Select` is a projection by
column names, not a filter.

The repository has two copies of `filter_columns_multiple`, in
`cor_funcoes.py` and in `__pycache__/cor_funcoes.py`. Their loop and `break`
are the same, so both are modelled by the single method
`ColumnPartitioner.FilterColumnsMultiple`. The lemmas about it cite lines from
both copies.

The partitioner and the excluder are imperative, as in the source:

- The partitioner is a method with the nested `for` loops and the `break`. It
  appends to a `map<string, seq<string>>`, which models the dictionary of
  lists.
- The excluder is a method that overwrites entries of a freshly allocated
  `array<bool>` keep-mask.

Each method's `ensures` ties its result to a specification function (`Group`,
`Kept`). The lemmas beside them prove the source's promises about those
functions. The cleaner and the detector are pure mask and set expressions in
the source, and they are functions here. For the detector, whose `list(...)`
of a set has no fixed order, the specification `Attrition.Dropouts` is a
ghost function and `Attrition.ListDropouts` is a method that builds the list by
taking the set apart one element at a time.

## Model

| member | source | states |
|---|---|---|
| `Strings.Contains` | __pycache__/cor_funcoes.py:32 | Python's `filter_ in column` (also cor_funcoes.py:18): the empty pattern occurs in every name, and a pattern longer than the name never occurs in it |
| `Strings.ContainsAny` | __pycache__/cor_funcoes.py:64 | `any(filter in column for filter in filters)`: false for an empty pattern list, true whenever the empty pattern is listed |
| `Strings.ContainsIffOccurs` | __pycache__/cor_funcoes.py:32 | the substring test used for `filter_ in column` holds exactly when the pattern occurs at some position of the name (the empty pattern occurs everywhere) |
| `Strings.OccursInTail` | __pycache__/cor_funcoes.py:32 | an occurrence of the pattern after the first character of the name is an occurrence in the rest of the name, one position earlier |
| `Strings.StartsWithIffPrefix` | __pycache__/cor_funcoes.py:32 | the character-by-character prefix test agrees with comparing the pattern against the name's first characters |
| `Frames.Select` | __pycache__/cor_funcoes.py:37 | `df[names]` has exactly the requested columns in the requested order and the same number of rows, each cell is the cell of the same row under the same name, and the result is well formed when the names are distinct |
| `Frames.SelectAll` | __pycache__/cor_funcoes.py:68 | selecting all of a table's columns in their own order gives back the table |
| `ColumnPartitioner.FirstMatch` | __pycache__/cor_funcoes.py:30-34 | the inner loop's stopping point: the index of a filter that occurs in the name with no earlier filter occurring, or no index when no filter occurs |
| `ColumnPartitioner.GroupKeyIsFirstMatch` | __pycache__/cor_funcoes.py:30-34 | a column is filed under `f` exactly when `f` is a listed filter occurring in the name and no filter listed before it occurs (both directions) |
| `ColumnPartitioner.GroupKeyIffMatches` | __pycache__/cor_funcoes.py:29-34 | a column is filed somewhere exactly when at least one filter occurs in its name |
| `ColumnPartitioner.GroupMembership` | __pycache__/cor_funcoes.py:32-33 | a name is in the group of `f` iff it is an input column, `f` occurs in it, and `f` is its first matching filter (so only names containing `f` are appended to `f`) |
| `ColumnPartitioner.GroupsDisjoint` | __pycache__/cor_funcoes.py:30-34 | because of the `break`, no column is in the groups of two different filters |
| `ColumnPartitioner.GroupsCover` | __pycache__/cor_funcoes.py:29-37 | the union of the groups is exactly the set of input columns that contain at least one filter; unmatched columns are in no group |
| `ColumnPartitioner.GroupOfUnmatchedFilterIsEmpty` | cor_funcoes.py:13-23 | a filter that occurs in no column name keeps its key with an empty group |
| `ColumnPartitioner.GroupKeepsOrder` | cor_funcoes.py:16-23 | each group lists its columns in their input order (it is a subsequence of the column list) |
| `ColumnPartitioner.GroupSnoc` | cor_funcoes.py:16-19 | one more column is appended to the group of its first matching filter and leaves every other group as it was |
| `ColumnPartitioner.GroupSizesSnoc` | cor_funcoes.py:16-20 | over duplicate-free filters, one more column adds one to the total group size if some filter occurs in it and nothing otherwise |
| `ColumnPartitioner.GroupSizesOfEmpty` | cor_funcoes.py:13 | base case of `GroupSizesSum`: over no columns the group sizes add up to zero |
| `ColumnPartitioner.GroupSizesSum` | cor_funcoes.py:16-20 | with duplicate-free filters, the group sizes add up to the number of input columns that contain at least one filter |
| `ColumnPartitioner.FileUnderFirstMatch` | cor_funcoes.py:17-20 | the `append` at the first matching filter followed by `break` turns the groups of the columns seen so far into the groups of those columns plus the new one |
| `ColumnPartitioner.FileNowhere` | cor_funcoes.py:16-18 | a column in which no filter occurs leaves every group as it was |
| `ColumnPartitioner.PartitionExample` | __pycache__/cor_funcoes.py:14-39 | columns `NOME`, `MAT_2020`, `MAT_2021` with filters `2020`, `2021` give the groups `[MAT_2020]` and `[MAT_2021]`, and `NOME` goes in neither |
| `ColumnPartitioner.FilterColumnsMultiple` | __pycache__/cor_funcoes.py:14-39 | the result has exactly one key per filter, and under each filter it holds the table restricted to that filter's group, in input order |
| `ColumnExcluder.Masked` | __pycache__/cor_funcoes.py:68 | `df.columns[selected_columns]`: an order-preserving subsequence of the columns that holds every column whose mask entry is true; an all-true mask keeps every column and an all-false mask keeps none |
| `ColumnExcluder.MaskedIsKept` | __pycache__/cor_funcoes.py:59-68 | boolean indexing with the mask that is false exactly at columns containing a pattern selects exactly the columns containing none, in order |
| `ColumnExcluder.KeptWithoutFilters` | __pycache__/cor_funcoes.py:59-68 | with no patterns every column is kept |
| `ColumnExcluder.FilterColumns` | __pycache__/cor_funcoes.py:46-68 | the result is the table restricted to the columns whose name contains no pattern, as an order-preserving subsequence of the input columns; it is well formed; with an empty pattern list it is the input table unchanged |
| `RowCleaner.HasValueOutsideId` | __pycache__/cor_funcoes.py:88 | the first stage's keep test: a kept row is never all missing, and over no non-`NOME` columns there is no value, so the row is dropped |
| `RowCleaner.AllMissing` | __pycache__/cor_funcoes.py:91 | `isna().all(axis=1)`: a row is flagged exactly when it is a row of missing cells of its own length |
| `RowCleaner.CleaningDataset` | __pycache__/cor_funcoes.py:73-93 | the two-stage cleaning keeps the columns and leaves exactly the rows that have a value outside `NOME`, in input order; the second stage never drops a row that the first stage kept |
| `RowCleaner.CleaningKeepsRowsWithData` | __pycache__/cor_funcoes.py:88-91 | the kept rows are an order-preserving subsequence of the input rows, and a row is kept iff it has a non-missing value outside `NOME` |
| `RowCleaner.CleaningPreservesWellFormed` | __pycache__/cor_funcoes.py:88-91 | every kept row still has one cell per column |
| `RowCleaner.CleaningIdempotent` | __pycache__/cor_funcoes.py:88-91 | cleaning an already cleaned table gives the same table |
| `Attrition.IdValues` | __pycache__/cor_funcoes.py:113-114 | `set(df[coluna_nome])`: every row's identifier is in the set and nothing else is; repeated identifiers, missing cells among them, count as one value, so the set is no larger than the number of rows |
| `Attrition.ListOf` | __pycache__/cor_funcoes.py:117 | `list(s)` holds every element of the set exactly once and nothing else |
| `Attrition.Dropouts` | __pycache__/cor_funcoes.py:100-118 | a missing identifier column in either table is a `KeyError` naming that column; otherwise the list has no duplicates and its elements form the earlier identifiers minus the later ones |
| `Attrition.ListDropouts` | __pycache__/cor_funcoes.py:100-118 | the runnable detector: the same promises as `Dropouts`, a `KeyError` naming the column exactly when either table lacks it, otherwise a duplicate-free list of the earlier identifiers minus the later ones |
| `Attrition.NoDropoutsWhenRetained` | __pycache__/cor_funcoes.py:113-117 | when the earlier identifiers are a subset of the later ones the result is empty |
| `Attrition.DropoutIffAbsentLater` | __pycache__/cor_funcoes.py:113-117 | an identifier of an earlier row is in the result iff no row of the later table carries it |
| `Attrition.DropoutsExample` | __pycache__/cor_funcoes.py:113-117 | earlier `Ana`, `Bruno`, `Carla` and later `Ana`, `Carla` give exactly `[Bruno]` |

## Left out

- `converter_e_arredondar` is not modelled. It parses strings with `pd.to_numeric`, rounds floating-point values, logs with `print` inside a broad `try/except`, and changes the frame in place, so it is floating-point and I/O bound.
- The chart renderers `plot_exact_counter`, `analyse_corr` and `comparar_colunas_por_metrica` are not modelled. They are plotting and display calls over float means and correlations.
- pandas internals are not modelled: row index labels, dtypes, and the order of `df.columns.difference(['NOME'])`. That method sorts the names, but the sort does not affect which rows `dropna` keeps.
- NaN in `calcular_desistentes`: pandas NaN values do not compare equal, so `set()` can keep several of them. The model treats the missing cell `None` as one ordinary value.
- `Attrition.Dropouts`: the order of `list(set_anterior - set_atual)` is unspecified. The model fixes no order: it says which elements the list has and that each appears once.
- `ColumnPartitioner.FilterColumnsMultiple`: Python dictionaries remember insertion order, which is the filter order. A Dafny `map` does not, so the result states only which keys are present and what each one holds.
- `ColumnPartitioner.GroupSizesSum`: requires duplicate-free filters. With a repeated filter the dictionary comprehension collapses its keys, so listing the filter twice would count its group twice. Everything else about the partitioner holds with repeated filters too.
- If a table's only column is `NOME`, the first stage has an empty subset. The model reads `how='all'` as "some cell of the subset holds a value", which is false over no columns, so it drops every row. How pandas itself handles this case is not part of this model.
- `Frames.WellFormed` requires the column names of a table to be distinct. pandas allows duplicate labels, and then `df[list]` repeats the columns that share a label; that case is not modelled.
- `Frames.Select` requires every requested name to be a column of the table. pandas raises `KeyError` otherwise, but in the modelled helpers the names always come from the table's own columns.
