# Frequency encoding of data-frame columns

This project models `add_total_value_counts` from
`InstantGratification/utils_ig.py`, the one piece of logic in the repository.
The function takes a target data frame `df`, a reference data frame `df_total`
and a list of column names `cols`. For each name `c`, in order, it does two
things:

- it counts how often each value occurs in `df_total[c]` (`value_counts`);
- it writes the column `c_FREQ` onto `df`, holding for each row the count of
  that row's `df[c]` value, or NaN when the value never occurs in the
  reference.

`df` is changed in place and returned. `df` and `df_total` may be the same
frame.

The model has four modules:

- `Wrappers` holds `Option` and `Result`.
- `Counting` holds the counting over a plain sequence: `Count` (the number of
  positions holding a value), `ValueCounts` (the frequency map, built in one
  pass) and `Total` (the sum of a map's counts).
- `Tables` holds table values and the specification of the call.
  - A `Table` is an ordered list of distinct column names, a map from name to
    column, and a row count that every column has.
  - A `Cell` is a number, a string or `Missing` (pandas' NaN).
  - `FreqColumn` is the derived column for one name, and `Step` is one pass of
    the loop.
  - `Annotate` is the whole call as a left fold over `cols`. The flag `same`
    says whether the reference is the target itself. When it is, each pass
    counts the target as the earlier passes left it.
- `UtilsIg` holds the code as it runs.
  - The class `Frame` is a data frame updated in place: `GetColumn` models
    `frame[name]` and `SetColumn` models `frame[name] = col`.
  - `AddValueCount` is one pass of the loop.
  - `AddTotalValueCounts` is the loop itself. Its postcondition ties the final
    frame and the result to `Annotate` of the old frames, with
    `same == (df == dfTotal)`.

Missing cells follow pandas' defaults. `value_counts` drops NaN, so `Present`
removes missing cells before counting. A missing target cell is never a key of
the counts, so it maps to `Missing`. A KeyError is returned as
`Failure(KeyError(c))` rather than raised.

A requested name need only be a column when its turn comes, not before the
call. When the two frames are one, a later name may select a `_FREQ` column
written by an earlier pass: `cols = ["a", "a_FREQ"]` succeeds on a frame that
has only `a`, and `a_FREQ_FREQ` then counts `a_FREQ` against itself
(`Selectable`, `AnnotateSucceedsIff`, `AnnotateChainOnOneFrame`). For the same
reason the derived columns are not independent of processing order in
general: `AnnotateLastFreqColumn` states each one in terms of the tables as
the passes before its name left them.

## Model

| member | source | states |
|---|---|---|
| `Counting.Count` | InstantGratification/utils_ig.py:7 | the count of a value is at most the column length, and positive exactly when the value occurs |
| `Counting.CountIsNumberOfPositions` | InstantGratification/utils_ig.py:7 | the count of `v` is the number of indices `j` with `s[j] == v` |
| `Counting.ValueCounts` | InstantGratification/utils_ig.py:7 | the frequency map has exactly the observed values as keys, and maps each to its count, which is at least 1 |
| `Counting.TotalValueCounts` | InstantGratification/utils_ig.py:7 | the counts in the frequency map add up to the length of the counted column |
| `Tables.Present` | InstantGratification/utils_ig.py:7 | dropping missing cells leaves no missing cell, is no longer than the column, and changes nothing in a column without missing cells |
| `Tables.PresentCounts` | InstantGratification/utils_ig.py:7 | dropping missing cells keeps the count of every other value and leaves a missing cell no count; a value is kept exactly when it occurs and is not missing |
| `Tables.ReferenceCountsSum` | InstantGratification/utils_ig.py:7 | the counts of a reference column are all at least 1 and add up to its non-missing cells, which is the whole column when none is missing |
| `Tables.FreqColumn` | InstantGratification/utils_ig.py:8 | the derived column is as long as the target column, so the target's row count is unchanged |
| `Tables.MapColumn` | InstantGratification/utils_ig.py:8 | `df[c].map(vc)` gives a column as long as `df[c]`; its contract gives only the length, and the per-cell contents are stated by `Tables.FreqColumnCounts` through `Tables.FreqColumn` |
| `Tables.FreqColumnCounts` | InstantGratification/utils_ig.py:7-8 | a target value that occurs in the reference gets the number of reference cells equal to it; an absent or missing value gets `Missing`, never 0; every count is at least 1 |
| `Tables.CountsOfOtherTable` | InstantGratification/utils_ig.py:7-8 | reference `[a, a, b]` and target `[a, b, a, z]` give `[2, 1, 2, missing]` |
| `Tables.CountsOfSameColumn` | InstantGratification/utils_ig.py:7-8 | a column `[x, x, y]` counted against itself gives `[2, 2, 1]` |
| `Tables.Derived` | InstantGratification/utils_ig.py:8 | the derived name `'{}_FREQ'.format(c)` starts with `c`, ends with `_FREQ`, and is exactly five characters longer |
| `Tables.DerivedInjective` | InstantGratification/utils_ig.py:8 | two different names never share a `_FREQ` column name |
| `Tables.SetColumn` | InstantGratification/utils_ig.py:8 | assigning a column keeps the row count; the named column holds the new values; every other column keeps its values; the keys gain only that name; the old column names stay, in order, at the front, so no column is removed or reordered |
| `Tables.SetColumnValid` | InstantGratification/utils_ig.py:8 | assigning a column as long as the others keeps a table well formed |
| `Tables.Step` | InstantGratification/utils_ig.py:7-8 | one pass keeps the target's row count |
| `Tables.StepOutcome` | InstantGratification/utils_ig.py:7-8 | one pass succeeds exactly when both tables have the column; on failure it gives `KeyError(c)` and leaves the target as it was; on success `c_FREQ` holds the frequencies of `t[c]` in `reference[c]` and every other column keeps its values |
| `Tables.Annotate` | InstantGratification/utils_ig.py:5-9 | the call keeps the target's row count and only extends its list of column names: none is removed or reordered |
| `Tables.AnnotateValid` | InstantGratification/utils_ig.py:6-8 | the call keeps a well-formed target well formed: every column, the derived ones included, has the original row count |
| `Tables.AnnotateNext` | InstantGratification/utils_ig.py:6-8 | after a successful prefix, the next name writes `FreqColumn` of the target's column, as the prefix left it, against the reference's column (the same target when the frames are one); or it fails with a KeyError that leaves the target unchanged |
| `Tables.EmptySelectionChangesNothing` | InstantGratification/utils_ig.py:5-9 | with no names the target comes back exactly as it was and nothing fails |
| `Tables.AnnotateStopsAtError` | InstantGratification/utils_ig.py:6-8 | once a name fails, later names are not processed |
| `Tables.AnnotateColumns` | InstantGratification/utils_ig.py:6-8 | a successful call leaves exactly the original columns plus `c_FREQ` for every requested `c` |
| `Tables.AnnotateKeepsOthers` | InstantGratification/utils_ig.py:8 | every column not named `c_FREQ` for a requested `c` keeps its values, whether or not the call fails |
| `Tables.AnnotateFreqColumn` | InstantGratification/utils_ig.py:6-8 | after a successful call, for a requested name whose own column no pass overwrites, `c_FREQ` holds the frequencies of the original `df[c]` in the original `df_total[c]` (in `df[c]` itself when the frames are one), replacing any earlier `c_FREQ` |
| `Tables.AnnotateLastFreqColumn` | InstantGratification/utils_ig.py:6-8 | after a successful call, for any requested name `cols[k]` that no later name repeats, `c_FREQ` holds the frequencies of `c` in the target against `c` in the reference, both as the passes `cols[..k]` left them (the target itself when the frames are one) |
| `Tables.AnnotateChainOnOneFrame` | InstantGratification/utils_ig.py:6-8 | on one frame holding only `a`, `cols = ["a", "a_FREQ"]` succeeds; `a_FREQ` counts `a` against itself and `a_FREQ_FREQ` counts `a_FREQ` against itself |
| `Tables.AnnotateSucceedsIff` | InstantGratification/utils_ig.py:6-8 | the call succeeds if and only if every name is, when its turn comes, a column of the target (from the start or derived by an earlier pass) and of the reference |
| `Tables.AnnotateFailure` | InstantGratification/utils_ig.py:6-8 | a failed call fails with `KeyError(cols[k])` for a name absent from the target or the reference, and leaves the target exactly as the successful prefix `cols[..k]` made it (not transactional) |
| `UtilsIg.Frame.GetColumn` | InstantGratification/utils_ig.py:7-8 | selecting a column gives its values, as many as the frame's rows, or a KeyError naming it when it is absent |
| `UtilsIg.Frame.SetColumn` | InstantGratification/utils_ig.py:8 | assigning a column changes the frame to `Tables.SetColumn` of its old contents and keeps it well formed |
| `UtilsIg.AddValueCount` | InstantGratification/utils_ig.py:7-8 | one pass leaves the frame as `Step` of the old frames says, or unchanged with the KeyError; the reference frame, when distinct, is not changed |
| `UtilsIg.AddTotalValueCounts` | InstantGratification/utils_ig.py:5-9 | the frame ends as `Annotate` of the old frames, and the result is the frame itself or the KeyError `Annotate` reports; a distinct reference frame is unchanged; with no names nothing changes |

## Left out

- Value types: cells are whole numbers, strings or `Missing`. Floats, booleans and categoricals are not modelled. Neither is pandas treating `1`, `1.0` and `True` as one key.
- dtypes: a derived column with misses becomes float64 with NaN in pandas. The model keeps whole-number counts and a `Missing` marker instead.
- Null-likes: `None`, NaN and NaT all become the one `Missing` cell. It is dropped from counting and always maps to `Missing`, as `value_counts` (dropna by default) and `Series.map` do.
- Index alignment: `Series.map` and column assignment align on the frame's index. The model treats columns as positional sequences.
- Column labels: labels are strings, and `'{}_FREQ'.format(c)` is modelled as string concatenation. Non-string labels are not modelled.
- Duplicate labels: a frame may have two columns with one label, and then `df[c]` is a frame. `Table.Valid` requires distinct names.
- KeyError: the exception is modelled as a `Failure` result carrying the missing name. Its message and traceback are not modelled.
- `cols=[]` default: the mutable default list is never mutated. Callers pass `[]` explicitly, and the model has no default argument.
- Imports: the unused imports of `os`, `numpy` and `pandas` (lines 1-3) carry no logic.
- Concurrency: concurrent calls on one frame are out of contract.
