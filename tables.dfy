/**
 * Tables as values, and the frequency encoding of `add_total_value_counts`
 * stated on them: one step per requested column name, and the whole call
 * as those steps taken strictly in order.
 */
module Tables {
  import opened Wrappers
  import opened Counting

  /** A scalar cell: a number, a string, or the missing marker (NaN). */
  datatype Cell = Num(n: int) | Text(s: string) | Missing

  /** Selecting a column that a table does not have. */
  datatype KeyError = KeyError(column: string)

  /**
   * Ordered, named columns sharing one row count. Names are distinct and
   * `names` lists exactly the keys of `columns`, in column order.
   */
  datatype Table = Table(names: seq<string>, columns: map<string, seq<Cell>>, rows: nat)
  {
    ghost predicate Valid()
    {
      && (forall i, j :: 0 <= i < j < |names| ==> names[i] != names[j])
      && (forall n :: n in columns <==> n in names)
      && (forall n :: n in columns ==> |columns[n]| == rows)
    }
  }

  const Suffix: string := "_FREQ"

  /** Name of the column derived from column `c`. */
  function Derived(c: string): (d: string)
    ensures |d| == |c| + |Suffix| && d[..|c|] == c && d[|c|..] == Suffix
  {
    c + Suffix
  }

  /** Different columns never share a derived column. */
  lemma DerivedInjective(a: string, b: string)
    requires Derived(a) == Derived(b)
    ensures a == b
  {
  }

  /** The names of the columns derived from `cols`. */
  ghost function FreqNames(cols: seq<string>): set<string>
  {
    set c | c in cols :: Derived(c)
  }

  /**
   * The cells that `value_counts` counts: every cell but the missing ones,
   * which it drops.
   */
  function Present(col: seq<Cell>): (r: seq<Cell>)
    ensures |r| <= |col|
    ensures Missing !in r
    ensures Missing !in col ==> r == col
  {
    if col == [] then []
    else
      var init, x := col[..|col| - 1], col[|col| - 1];
      assert col == init + [x];
      Present(init) + (if x.Missing? then [] else [x])
  }

  /** Dropping missing cells keeps the count of every other value. */
  lemma {:induction false} PresentCounts(col: seq<Cell>, v: Cell)
    ensures Count(Present(col), v) == if v.Missing? then 0 else Count(col, v)
    ensures v in Present(col) <==> !v.Missing? && v in col
  {
    if col != [] {
      var init, x := col[..|col| - 1], col[|col| - 1];
      assert col == init + [x];
      var p := Present(init);
      assert Present(col) == p + (if x.Missing? then [] else [x]);
      PresentCounts(init, v);
      CountSnoc(init, x, v);
      if x.Missing? {
        assert Present(col) == p;
      } else {
        CountSnoc(p, x, v);
      }
    }
  }

  /** `Series.map` with a frequency map: a hit gives the count, a miss gives NaN. */
  function MapColumn(col: seq<Cell>, vc: map<Cell, nat>): (r: seq<Cell>)
    ensures |r| == |col|
  {
    seq(|col|, i requires 0 <= i < |col| => if col[i] in vc then Num(vc[col[i]]) else Missing)
  }

  /**
   * The derived column for one name: each target cell looked up in the
   * counts of the reference column.
   */
  function FreqColumn(target: seq<Cell>, reference: seq<Cell>): (r: seq<Cell>)
    ensures |r| == |target|
  {
    MapColumn(target, ValueCounts(Present(reference)))
  }

  /**
   * Each target cell becomes the number of reference cells equal to it, or
   * the missing marker when the reference has none (or the cell is itself
   * missing), never 0; every count is at least one.
   */
  lemma FreqColumnCounts(target: seq<Cell>, reference: seq<Cell>)
    ensures var r := FreqColumn(target, reference);
      && (forall i :: 0 <= i < |target| && !target[i].Missing? && target[i] in reference ==>
            r[i] == Num(Count(reference, target[i])))
      && (forall i :: 0 <= i < |target| && (target[i].Missing? || target[i] !in reference) ==>
            r[i] == Missing)
      && (forall i :: 0 <= i < |r| && r[i].Num? ==> r[i].n >= 1)
  {
    var p := Present(reference);
    var vc := ValueCounts(p);
    forall i | 0 <= i < |target|
      ensures target[i] in vc <==> !target[i].Missing? && target[i] in reference
      ensures target[i] in vc ==> vc[target[i]] == Count(reference, target[i])
    {
      PresentCounts(reference, target[i]);
    }
  }

  /**
   * The counts of a reference column are all at least one and add up to the
   * number of its cells that are not missing: the whole column when none is.
   */
  lemma ReferenceCountsSum(reference: seq<Cell>)
    ensures var vc := ValueCounts(Present(reference));
      && (forall v :: v in vc ==> vc[v] >= 1)
      && Total(vc) == |Present(reference)|
      && (Missing !in reference ==> Total(vc) == |reference|)
  {
    TotalValueCounts(Present(reference));
  }

  /** Counting `[a, a, b]` and looking up `[a, b, a, z]` gives `[2, 1, 2, missing]`. */
  lemma CountsOfOtherTable()
    ensures FreqColumn([Text("a"), Text("b"), Text("a"), Text("z")], [Text("a"), Text("a"), Text("b")])
         == [Num(2), Num(1), Num(2), Missing]
  {
    var reference := [Text("a"), Text("a"), Text("b")];
    assert Count(reference, Text("a")) == 2;
    assert Count(reference, Text("b")) == 1;
    assert Text("z") !in reference;
  }

  /** A column counted against itself: `[x, x, y]` gives `[2, 2, 1]`. */
  lemma CountsOfSameColumn()
    ensures var col := [Text("x"), Text("x"), Text("y")];
      FreqColumn(col, col) == [Num(2), Num(2), Num(1)]
  {
    var col := [Text("x"), Text("x"), Text("y")];
    assert Count(col, Text("x")) == 2;
    assert Count(col, Text("y")) == 1;
  }

  /** `df[name] = col`: overwrites an existing column in place, or appends a new one. */
  function SetColumn(t: Table, name: string, col: seq<Cell>): (u: Table)
    ensures u.rows == t.rows
    ensures name in u.columns && u.columns[name] == col
    ensures forall n :: n in t.columns && n != name ==> n in u.columns && u.columns[n] == t.columns[n]
    ensures u.columns.Keys == t.columns.Keys + {name}
    ensures |t.names| <= |u.names| && u.names[..|t.names|] == t.names
  {
    Table(if name in t.columns then t.names else t.names + [name], t.columns[name := col], t.rows)
  }

  /** Assigning a column as long as the others keeps a table well formed. */
  lemma SetColumnValid(t: Table, name: string, col: seq<Cell>)
    requires t.Valid() && |col| == t.rows
    ensures SetColumn(t, name, col).Valid()
  {
  }

  /** What a pass or the whole call leaves behind: the target table, and the error that stopped it. */
  datatype Outcome = Outcome(table: Table, error: Option<KeyError>)

  /**
   * One pass of the loop for name `c`: count `reference[c]`, then map
   * `t[c]` through the counts into column `c_FREQ`. Either selection fails
   * with a KeyError when the column is absent, and `t` is left as it was.
   */
  function Step(t: Table, reference: Table, c: string): (o: Outcome)
    ensures o.table.rows == t.rows
  {
    if c !in reference.columns then Outcome(t, Some(KeyError(c)))
    else if c !in t.columns then Outcome(t, Some(KeyError(c)))
    else Outcome(SetColumn(t, Derived(c), FreqColumn(t.columns[c], reference.columns[c])), None)
  }

  /**
   * A pass succeeds exactly when both tables have the column; otherwise it
   * fails with a KeyError naming it and leaves the target as it was. On
   * success the target gains `c_FREQ`, the frequencies of `t[c]` in
   * `reference[c]`, and every other column keeps its values.
   */
  lemma StepOutcome(t: Table, reference: Table, c: string)
    ensures var o := Step(t, reference, c);
      && (o.error.None? <==> c in reference.columns && c in t.columns)
      && (o.error.Some? ==> o.error == Some(KeyError(c)) && o.table == t)
      && (o.error.None? ==>
            && Derived(c) in o.table.columns
            && o.table.columns[Derived(c)] == FreqColumn(t.columns[c], reference.columns[c])
            && forall n :: n in t.columns && n != Derived(c) ==>
                 n in o.table.columns && o.table.columns[n] == t.columns[n])
  {
  }

  /**
   * The whole call: the names of `cols` are processed strictly in order.
   * When `same` holds the target is also the reference, so each step counts
   * the target as the earlier steps left it. The first KeyError stops the
   * loop, and the columns derived before it stay in the target.
   */
  function Annotate(t: Table, reference: Table, same: bool, cols: seq<string>): (o: Outcome)
    ensures o.table.rows == t.rows
    ensures |t.names| <= |o.table.names| && o.table.names[..|t.names|] == t.names
  {
    if cols == [] then Outcome(t, None)
    else
      var o := Annotate(t, reference, same, cols[..|cols| - 1]);
      if o.error.Some? then o
      else Step(o.table, if same then o.table else reference, cols[|cols| - 1])
  }

  /**
   * One more name, after a prefix that succeeded: the name is processed
   * against the target as the prefix left it, or fails with a KeyError that
   * leaves that target as it is.
   */
  lemma AnnotateNext(t: Table, reference: Table, same: bool, cols: seq<string>, k: nat)
    requires k < |cols|
    requires Annotate(t, reference, same, cols[..k]).error.None?
    ensures var o := Annotate(t, reference, same, cols[..k]);
      var r := if same then o.table else reference;
      Annotate(t, reference, same, cols[..k + 1]) == Step(o.table, r, cols[k])
  {
    assert cols[..k + 1][..k] == cols[..k];
  }

  /**
   * The call keeps the target well formed: every column, the derived ones
   * included, has the original row count.
   */
  lemma {:induction false} AnnotateValid(t: Table, reference: Table, same: bool, cols: seq<string>)
    requires t.Valid()
    ensures Annotate(t, reference, same, cols).table.Valid()
  {
    if cols != [] {
      var o := Annotate(t, reference, same, cols[..|cols| - 1]);
      AnnotateValid(t, reference, same, cols[..|cols| - 1]);
      var c := cols[|cols| - 1];
      if o.error.None? && c in o.table.columns {
        var r := if same then o.table else reference;
        if c in r.columns {
          SetColumnValid(o.table, Derived(c), FreqColumn(o.table.columns[c], r.columns[c]));
        }
      }
    }
  }

  /** With no names the target comes back exactly as it was. */
  lemma EmptySelectionChangesNothing(t: Table, reference: Table, same: bool)
    ensures Annotate(t, reference, same, []) == Outcome(t, None)
  {
  }

  /** Once a name fails, the names after it are not processed. */
  lemma {:induction false} AnnotateStopsAtError(t: Table, reference: Table, same: bool, cols: seq<string>, k: nat)
    requires k <= |cols|
    requires Annotate(t, reference, same, cols[..k]).error.Some?
    ensures Annotate(t, reference, same, cols) == Annotate(t, reference, same, cols[..k])
    decreases |cols| - k
  {
    if k < |cols| {
      var n := |cols| - 1;
      assert cols[..n][..k] == cols[..k];
      AnnotateStopsAtError(t, reference, same, cols[..n], k);
    } else {
      assert cols[..k] == cols;
    }
  }

  /** A successful call adds exactly one derived column per name, and no other. */
  lemma {:induction false} AnnotateColumns(t: Table, reference: Table, same: bool, cols: seq<string>)
    ensures var o := Annotate(t, reference, same, cols);
      o.error.None? ==> o.table.columns.Keys == t.columns.Keys + FreqNames(cols)
  {
    if cols != [] {
      var init := cols[..|cols| - 1];
      AnnotateColumns(t, reference, same, init);
      assert cols == init + [cols[|cols| - 1]];
      assert FreqNames(cols) == FreqNames(init) + {Derived(cols[|cols| - 1])};
    }
  }

  /**
   * Columns that are not the derived column of some requested name keep
   * their values, whether or not the call fails.
   */
  lemma {:induction false} AnnotateKeepsOthers(t: Table, reference: Table, same: bool, cols: seq<string>)
    ensures var o := Annotate(t, reference, same, cols);
      forall n :: n in t.columns && n !in FreqNames(cols) ==>
        n in o.table.columns && o.table.columns[n] == t.columns[n]
  {
    if cols != [] {
      var init, x := cols[..|cols| - 1], cols[|cols| - 1];
      AnnotateKeepsOthers(t, reference, same, init);
      assert cols == init + [x];
      var o0 := Annotate(t, reference, same, init);
      var o := Annotate(t, reference, same, cols);
      forall n | n in t.columns && n !in FreqNames(cols)
        ensures n in o.table.columns && o.table.columns[n] == t.columns[n]
      {
        assert n !in FreqNames(init) && n != Derived(x);
        assert n in o0.table.columns && o0.table.columns[n] == t.columns[n];
      }
    }
  }

  /**
   * Count correctness over the whole call: for a requested name whose own
   * column no step overwrites, the derived column holds the frequencies of
   * the original target column in the original reference column (in the
   * target itself when the two tables are one).
   */
  lemma {:induction false} AnnotateFreqColumn(t: Table, reference: Table, same: bool, cols: seq<string>, c: string)
    requires Annotate(t, reference, same, cols).error.None?
    requires c in cols && c !in FreqNames(cols)
    ensures c in t.columns && (same || c in reference.columns)
    ensures var o := Annotate(t, reference, same, cols);
      var r := if same then t else reference;
      Derived(c) in o.table.columns && o.table.columns[Derived(c)] == FreqColumn(t.columns[c], r.columns[c])
  {
    var init, x := cols[..|cols| - 1], cols[|cols| - 1];
    assert cols == init + [x];
    var o0 := Annotate(t, reference, same, init);
    assert o0.error.None?;
    assert FreqNames(init) <= FreqNames(cols);
    AnnotateKeepsOthers(t, reference, same, init);
    AnnotateColumns(t, reference, same, init);
    if x == c {
      assert c in o0.table.columns;
      assert c in t.columns;
      assert o0.table.columns[c] == t.columns[c];
    } else {
      assert c in init;
      AnnotateFreqColumn(t, reference, same, init, c);
      if Derived(x) == Derived(c) {
        DerivedInjective(x, c);
      }
    }
  }

  /**
   * Name `cols[k]` can be selected at step `k` when the target has it,
   * either from the start or as the derived column of an earlier name, and
   * the reference has it too (the same condition when the tables are one).
   */
  ghost predicate Selectable(t: Table, reference: Table, same: bool, cols: seq<string>, k: nat)
    requires k < |cols|
  {
    && (cols[k] in t.columns || cols[k] in FreqNames(cols[..k]))
    && (same || cols[k] in reference.columns)
  }

  /** Every name can be selected when its turn comes. */
  ghost predicate Resolvable(t: Table, reference: Table, same: bool, cols: seq<string>)
  {
    forall k :: 0 <= k < |cols| ==> Selectable(t, reference, same, cols, k)
  }

  /** Selectability of a name depends only on the names before it. */
  lemma SelectableInPrefix(t: Table, reference: Table, same: bool, cols: seq<string>, n: nat, k: nat)
    requires k < n <= |cols|
    ensures Selectable(t, reference, same, cols[..n], k) == Selectable(t, reference, same, cols, k)
  {
  }

  /** Resolvability grows one name at a time. */
  lemma ResolvableSnoc(t: Table, reference: Table, same: bool, cols: seq<string>)
    requires cols != []
    ensures Resolvable(t, reference, same, cols) <==>
      Resolvable(t, reference, same, cols[..|cols| - 1]) && Selectable(t, reference, same, cols, |cols| - 1)
  {
    var n := |cols| - 1;
    forall k | 0 <= k < n {
      SelectableInPrefix(t, reference, same, cols, n, k);
    }
  }

  /** The last name of a call is processed exactly when all before it succeeded and it is present in both tables. */
  lemma AnnotateSnoc(t: Table, reference: Table, same: bool, cols: seq<string>)
    requires cols != []
    ensures var o0 := Annotate(t, reference, same, cols[..|cols| - 1]);
      var r0 := if same then o0.table else reference;
      var x := cols[|cols| - 1];
      Annotate(t, reference, same, cols).error.None? <==>
        o0.error.None? && x in r0.columns && x in o0.table.columns
  {
  }

  /** The call succeeds exactly when every name can be selected when its turn comes. */
  lemma {:induction false} AnnotateSucceedsIff(t: Table, reference: Table, same: bool, cols: seq<string>)
    ensures Annotate(t, reference, same, cols).error.None? <==> Resolvable(t, reference, same, cols)
  {
    if cols != [] {
      var n := |cols| - 1;
      var init := cols[..n];
      AnnotateSucceedsIff(t, reference, same, init);
      AnnotateColumns(t, reference, same, init);
      ResolvableSnoc(t, reference, same, cols);
      AnnotateSnoc(t, reference, same, cols);
    }
  }

  /**
   * The call is not transactional: when it fails at name `cols[k]`, the
   * target holds exactly what processing `cols[..k]` produced.
   */
  lemma {:induction false} AnnotateFailure(t: Table, reference: Table, same: bool, cols: seq<string>)
    requires Annotate(t, reference, same, cols).error.Some?
    ensures var o := Annotate(t, reference, same, cols);
      exists k :: 0 <= k < |cols|
        && o.error == Some(KeyError(cols[k]))
        && Annotate(t, reference, same, cols[..k]) == Outcome(o.table, None)
        && (cols[k] !in o.table.columns || (!same && cols[k] !in reference.columns))
  {
    var n := |cols| - 1;
    var init, x := cols[..n], cols[n];
    var o0 := Annotate(t, reference, same, init);
    if o0.error.Some? {
      AnnotateFailure(t, reference, same, init);
      var k :| 0 <= k < |init| && o0.error == Some(KeyError(init[k]))
        && Annotate(t, reference, same, init[..k]) == Outcome(o0.table, None)
        && (init[k] !in o0.table.columns || (!same && init[k] !in reference.columns));
      assert init[..k] == cols[..k];
      assert init[k] == cols[k];
    } else {
      assert Annotate(t, reference, same, cols[..n]) == Outcome(o0.table, None);
    }
  }

  /**
   * Count correctness over the whole call, for any requested name: the
   * derived column is the one written by the last pass for that name, from
   * the target and reference as the passes before it left them. When the
   * two are one frame, a name such as `a_FREQ` thus counts the column an
   * earlier pass for `a` wrote.
   */
  lemma {:induction false} AnnotateLastFreqColumn(t: Table, reference: Table, same: bool, cols: seq<string>, k: nat)
    requires Annotate(t, reference, same, cols).error.None?
    requires k < |cols|
    requires forall j :: k < j < |cols| ==> cols[j] != cols[k]
    ensures var p := Annotate(t, reference, same, cols[..k]).table;
      var rk := if same then p else reference;
      var c := cols[k];
      var o := Annotate(t, reference, same, cols);
      && c in p.columns && c in rk.columns
      && Derived(c) in o.table.columns
      && o.table.columns[Derived(c)] == FreqColumn(p.columns[c], rk.columns[c])
  {
    var n := |cols| - 1;
    var init, x := cols[..n], cols[n];
    var o0 := Annotate(t, reference, same, init);
    assert o0.error.None?;
    var r0 := if same then o0.table else reference;
    AnnotateNext(t, reference, same, cols, n);
    assert cols[..n + 1] == cols;
    if k == n {
      assert x in o0.table.columns && x in r0.columns;
    } else {
      assert init[..k] == cols[..k];
      forall j | k < j < |init| ensures init[j] != init[k] {
        assert init[j] == cols[j];
      }
      AnnotateLastFreqColumn(t, reference, same, init, k);
      if Derived(x) == Derived(cols[k]) {
        DerivedInjective(x, cols[k]);
      }
      assert Derived(x) != Derived(cols[k]);
    }
  }

  /** The lemma above on the chain `["a", "a_FREQ"]` over one frame holding only `a`. */
  lemma AnnotateChainOnOneFrame(a: seq<Cell>)
    ensures var t := Table(["a"], map["a" := a], |a|);
      var o := Annotate(t, t, true, ["a", "a_FREQ"]);
      && o.error.None?
      && "a_FREQ" in o.table.columns && "a_FREQ_FREQ" in o.table.columns
      && o.table.columns["a_FREQ"] == FreqColumn(a, a)
      && o.table.columns["a_FREQ_FREQ"] == FreqColumn(FreqColumn(a, a), FreqColumn(a, a))
  {
    var t := Table(["a"], map["a" := a], |a|);
    var cols := ["a", "a_FREQ"];
    assert Derived("a") == "a_FREQ";
    assert Derived("a_FREQ") == "a_FREQ_FREQ";
    assert cols[..0] == [] && cols[..1] == ["a"] && cols[..2] == cols;
    AnnotateSucceedsIff(t, t, true, cols);
    assert Selectable(t, t, true, cols, 1) by {
      assert "a_FREQ" in FreqNames(cols[..1]);
    }
    AnnotateLastFreqColumn(t, t, true, cols, 0);
    AnnotateLastFreqColumn(t, t, true, cols, 1);
  }
}
