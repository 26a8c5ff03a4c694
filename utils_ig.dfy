/**
 * `add_total_value_counts`: the loop over the requested names, writing a
 * frequency column onto a data frame that is changed in place.
 */
module UtilsIg {
  import opened Wrappers
  import opened Counting
  import opened Tables

  /** A data frame: ordered, named, equally long columns, updated in place. */
  class Frame {
    var names: seq<string>
    var columns: map<string, seq<Cell>>
    var rows: nat

    /** The frame's current contents as a table value. */
    function Value(): Table
      reads this
    {
      Table(names, columns, rows)
    }

    ghost predicate Valid()
      reads this
    {
      Value().Valid()
    }

    /** `frame[name]`: the column of that name, or a KeyError when there is none. */
    method GetColumn(name: string) returns (r: Result<seq<Cell>, KeyError>)
      requires Valid()
      ensures name in columns ==> r == Success(columns[name]) && |r.value| == rows
      ensures name !in columns ==> r == Failure(KeyError(name))
    {
      if name in columns {
        r := Success(columns[name]);
      } else {
        r := Failure(KeyError(name));
      }
    }

    /** `frame[name] = col`: overwrites the column of that name, or appends it as the last column. */
    method SetColumn(name: string, col: seq<Cell>)
      requires Valid() && |col| == rows
      modifies this
      ensures Valid() && Value() == Tables.SetColumn(old(Value()), name, col)
    {
      SetColumnValid(Value(), name, col);
      if name !in columns {
        names := names + [name];
      }
      columns := columns[name := col];
    }
  }

  /**
   * One pass of the loop for name `c`: count the values of `dfTotal[c]`,
   * then write, as column `c_FREQ` of `df`, the count of each row's `df[c]`
   * value (missing when it is never seen). A KeyError leaves `df` as it was.
   */
  method AddValueCount(df: Frame, dfTotal: Frame, c: string) returns (err: Option<KeyError>)
    requires df.Valid() && dfTotal.Valid()
    modifies df
    ensures df.Valid()
    ensures Outcome(df.Value(), err) == Step(old(df.Value()), old(dfTotal.Value()), c)
    ensures df != dfTotal ==> dfTotal.Value() == old(dfTotal.Value())
  {
    var total := dfTotal.GetColumn(c);
    if total.Failure? {
      return Some(total.error);
    }
    var vc := ValueCounts(Present(total.value));
    var col := df.GetColumn(c);
    if col.Failure? {
      return Some(col.error);
    }
    df.SetColumn(Derived(c), MapColumn(col.value, vc));
    err := None;
  }

  /**
   * For each name of `cols`, in order, one pass of `AddValueCount`; returns
   * `df` itself. The first absent name ends the call with a KeyError and
   * leaves the columns already written in place. `df` and `dfTotal` may be
   * the same frame, and then a later name may select a column written by an
   * earlier pass.
   */
  method AddTotalValueCounts(df: Frame, dfTotal: Frame, cols: seq<string>) returns (r: Result<Frame, KeyError>)
    requires df.Valid() && dfTotal.Valid()
    modifies df
    ensures df.Valid()
    ensures var o := Annotate(old(df.Value()), old(dfTotal.Value()), df == dfTotal, cols);
      df.Value() == o.table && r == (if o.error.None? then Success(df) else Failure(o.error.value))
    ensures df != dfTotal ==> dfTotal.Value() == old(dfTotal.Value())
    ensures cols == [] ==> df.Value() == old(df.Value()) && r == Success(df)
  {
    ghost var t0, ref0, same := df.Value(), dfTotal.Value(), df == dfTotal;
    var k := 0;
    var err: Option<KeyError> := None;
    while k < |cols| && err.None?
      invariant k <= |cols|
      invariant df.Valid() && dfTotal.Valid()
      invariant Annotate(t0, ref0, same, cols[..k]) == Outcome(df.Value(), err)
      invariant !same ==> dfTotal.Value() == ref0
    {
      AnnotateNext(t0, ref0, same, cols, k);
      err := AddValueCount(df, dfTotal, cols[k]);
      k := k + 1;
    }
    if err.Some? {
      AnnotateStopsAtError(t0, ref0, same, cols, k);
      r := Failure(err.value);
    } else {
      assert cols[..k] == cols;
      r := Success(df);
    }
  }
}
