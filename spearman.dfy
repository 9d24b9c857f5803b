/** `spearman_assess`: one Spearman row per numeric column other than the
    target, ordered by decreasing magnitude of the coefficient. */
module Spearman {
  import opened Frame
  import opened StrengthTiers
  import opened ColumnScan

  datatype SpearmanRow = SpearmanRow(feature: string, r: real, p: real, strength: Strength)

  /** `stats.spearmanr(target, column, nan_policy="omit")`, a library call
      that the model takes as a parameter. */
  type SpearmanTest = (seq<Value>, seq<Value>) -> Test

  /** The row the loop appends for one column: its label, the coefficient
      and p-value of the test against the target, and the coefficient's
      tier. */
  function RowFor(c: Column, target: seq<Value>, spearman: SpearmanTest): (row: SpearmanRow)
    ensures row.feature == c.name
    ensures row.r == spearman(target, c.values).stat && row.p == spearman(target, c.values).p
    ensures row.strength == Classify(row.r)
  {
    var test := spearman(target, c.values);
    SpearmanRow(c.name, test.stat, test.p, Classify(test.stat))
  }

  /** The table the loop builds before sorting: one row per selected
      column, in scan order (`SpearmanRowsAre` spells out each row). */
  function SpearmanRows(cols: Dataset, target: seq<Value>, spearman: SpearmanTest): (rows: seq<SpearmanRow>)
    ensures |rows| == |cols|
  {
    seq(|cols|, k requires 0 <= k < |cols| => RowFor(cols[k], target, spearman))
  }

  predicate SortedByAbs(rows: seq<SpearmanRow>)
  {
    forall i :: 0 <= i < |rows| - 1 ==> Abs(rows[i].r) >= Abs(rows[i + 1].r)
  }

  /** Place a row into a table sorted by decreasing |R|. */
  function Insert(x: SpearmanRow, rows: seq<SpearmanRow>): (out: seq<SpearmanRow>)
    requires SortedByAbs(rows)
    ensures SortedByAbs(out)
    ensures multiset(out) == multiset(rows) + multiset{x}
    ensures |out| > 0 && (out[0] == x || (|rows| > 0 && out[0] == rows[0]))
  {
    if rows == [] then [x]
    else if Abs(x.r) >= Abs(rows[0].r) then
      SortedCons(x, rows);
      [x] + rows
    else
      SortedTail(rows);
      var tail := Insert(x, rows[1..]);
      SortedBehind(x, rows, tail);
      MultisetBehind(x, rows, tail);
      [rows[0]] + tail
  }

  lemma SortedTail(rows: seq<SpearmanRow>)
    requires SortedByAbs(rows) && |rows| > 0
    ensures SortedByAbs(rows[1..])
  {
    forall i | 0 <= i < |rows| - 2 ensures Abs(rows[1..][i].r) >= Abs(rows[1..][i + 1].r) {
      assert rows[1..][i] == rows[i + 1] && rows[1..][i + 1] == rows[i + 2];
    }
  }

  /** Putting the old head back in front of the rest with `x` inserted
      gives the old rows plus `x`. */
  lemma MultisetBehind(x: SpearmanRow, rows: seq<SpearmanRow>, tail: seq<SpearmanRow>)
    requires |rows| > 0 && multiset(tail) == multiset(rows[1..]) + multiset{x}
    ensures multiset([rows[0]] + tail) == multiset(rows) + multiset{x}
  {
    assert rows == [rows[0]] + rows[1..];
  }

  /** The head of a sorted table stays in front of the rest with a smaller
      row inserted, whose head is that row or the old second row. */
  lemma SortedBehind(x: SpearmanRow, rows: seq<SpearmanRow>, tail: seq<SpearmanRow>)
    requires SortedByAbs(rows) && |rows| > 0 && Abs(x.r) < Abs(rows[0].r)
    requires SortedByAbs(tail) && |tail| > 0
    requires tail[0] == x || (|rows| > 1 && tail[0] == rows[1])
    ensures SortedByAbs([rows[0]] + tail)
  {
    SortedCons(rows[0], tail);
  }

  /** A row no smaller than the head of a sorted table can go in front. */
  lemma SortedCons(h: SpearmanRow, rows: seq<SpearmanRow>)
    requires SortedByAbs(rows)
    requires |rows| > 0 ==> Abs(h.r) >= Abs(rows[0].r)
    ensures SortedByAbs([h] + rows)
  {
    var out := [h] + rows;
    forall i | 0 <= i < |out| - 1 ensures Abs(out[i].r) >= Abs(out[i + 1].r) {
      if i > 0 {
        assert out[i] == rows[i - 1] && out[i + 1] == rows[i];
      }
    }
  }

  /** `reindex(abs().sort_values(ascending=False).index)`: the rows
      reordered by decreasing |R|. Ties may come out in any order. */
  function SortByAbs(rows: seq<SpearmanRow>): (out: seq<SpearmanRow>)
    ensures SortedByAbs(out)
    ensures multiset(out) == multiset(rows)
    ensures |out| == |rows|
  {
    if rows == [] then []
    else
      assert rows == [rows[0]] + rows[1..];
      Insert(rows[0], SortByAbs(rows[1..]))
  }

  /** Adjacent order gives order between any two rows. */
  lemma {:induction false} SortedPairwise(rows: seq<SpearmanRow>, i: int, j: int)
    requires SortedByAbs(rows)
    requires 0 <= i <= j < |rows|
    ensures Abs(rows[i].r) >= Abs(rows[j].r)
    decreases j - i
  {
    if i < j {
      SortedPairwise(rows, i + 1, j);
    }
  }

  /** The definitions of `SpearmanRows` and `RowFor` unfolded field by
      field: row k of the unsorted table holds the k-th selected column's
      name, the coefficient and p-value of its test against the target, and
      the coefficient's tier. */
  lemma SpearmanRowsAre(data: Dataset, targetName: string, target: seq<Value>, spearman: SpearmanTest)
    ensures var cols := Selected(data, targetName, Numeric);
            var rows := SpearmanRows(cols, target, spearman);
            |rows| == |cols| &&
            forall k :: 0 <= k < |rows| ==>
              rows[k].feature == cols[k].name &&
              rows[k].r == spearman(target, cols[k].values).stat &&
              rows[k].p == spearman(target, cols[k].values).p &&
              rows[k].strength == Classify(rows[k].r)
  {
  }

  /** The table has one row per numeric column other than the target, in
      the order of the columns, each naming its column; no such column is
      left out. */
  lemma SpearmanRowsFeatures(data: Dataset, targetName: string, target: seq<Value>, spearman: SpearmanTest)
    ensures var rows := SpearmanRows(Selected(data, targetName, Numeric), target, spearman);
            var pos := SelectedPositions(data, targetName, Numeric);
            |rows| == |pos| &&
            (forall k :: 0 <= k < |rows| ==>
               rows[k].feature == data[pos[k]].name && data[pos[k]].kind == Numeric &&
               rows[k].feature != targetName) &&
            (forall k, l :: 0 <= k < l < |rows| ==> pos[k] < pos[l]) &&
            (forall i :: 0 <= i < |data| && data[i].kind == Numeric && data[i].name != targetName ==>
               i in pos)
  {
    var pos := SelectedPositions(data, targetName, Numeric);
    forall i | 0 <= i < |data| && data[i].kind == Numeric && data[i].name != targetName
      ensures i in pos
    {
      assert Qualifies(data[i], targetName, Numeric);
    }
  }

  /** The summary table built from the four aligned lists. */
  function Table(names: seq<string>, correlation: seq<real>, pvalue: seq<real>, strength: seq<Strength>): (t: seq<SpearmanRow>)
    requires |names| == |correlation| == |pvalue| == |strength|
    ensures |t| == |names|
  {
    seq(|names|, k requires 0 <= k < |names| => SpearmanRow(names[k], correlation[k], pvalue[k], strength[k]))
  }

  lemma TableSnoc(names: seq<string>, correlation: seq<real>, pvalue: seq<real>, strength: seq<Strength>,
                  n: string, c: real, p: real, s: Strength)
    requires |names| == |correlation| == |pvalue| == |strength|
    ensures Table(names + [n], correlation + [c], pvalue + [p], strength + [s]) ==
              Table(names, correlation, pvalue, strength) + [SpearmanRow(n, c, p, s)]
  {
  }

  lemma RowsSnoc(cols: Dataset, c: Column, target: seq<Value>, spearman: SpearmanTest)
    ensures SpearmanRows(cols + [c], target, spearman) == SpearmanRows(cols, target, spearman) + [RowFor(c, target, spearman)]
  {
  }

  /** `spearman_assess`. The target column is looked up at each qualifying
      column, so a missing target fails only when such a column exists. */
  method SpearmanAssess(data: Dataset, target: string, spearman: SpearmanTest)
    returns (r: Result<seq<SpearmanRow>>)
    requires DistinctNames(data)
    ensures r.Err? <==> |Selected(data, target, Numeric)| > 0 && !HasColumn(data, target)
    ensures r.Err? ==> r.error == MissingColumn(target)
    ensures r.Ok? ==> |r.value| == |Selected(data, target, Numeric)|
    ensures r.Ok? ==> multiset(r.value) ==
              multiset(SpearmanRows(Selected(data, target, Numeric), CellsOf(data, target), spearman))
    ensures r.Ok? ==> SortedByAbs(r.value)
  {
    ghost var t := CellsOf(data, target);
    var names: seq<string> := [];
    var correlation: seq<real> := [];
    var pvalue: seq<real> := [];
    var strength: seq<Strength> := [];
    for i := 0 to |data|
      invariant |names| == |correlation| == |pvalue| == |strength|
      invariant Table(names, correlation, pvalue, strength) ==
                  SpearmanRows(Selected(data[..i], target, Numeric), t, spearman)
      invariant |Selected(data[..i], target, Numeric)| > 0 ==> HasColumn(data, target)
    {
      SelectedSnoc(data, target, Numeric, i);
      var column := data[i];
      if column.kind == Numeric {
        if column.name != target {
          var targetColumn := Find(data, target);
          if targetColumn.None? {
            SelectedPrefix(data, target, Numeric, i + 1);
            return Err(MissingColumn(target));
          }
          var test := spearman(targetColumn.value.values, column.values);
          AppendRow(data, target, spearman, i, names, correlation, pvalue, strength, test);
          names := names + [column.name];
          correlation := correlation + [test.stat];
          pvalue := pvalue + [test.p];
          strength := strength + [Classify(test.stat)];
        }
      }
    }
    assert data[..|data|] == data;
    var table := Table(names, correlation, pvalue, strength);
    return Ok(SortByAbs(table));
  }

  /** One pass of the loop of `spearman_assess` over a qualifying column:
      the lists extended by its test still spell out the table so far. */
  lemma AppendRow(data: Dataset, target: string, spearman: SpearmanTest, i: int,
                  names: seq<string>, correlation: seq<real>, pvalue: seq<real>, strength: seq<Strength>,
                  test: Test)
    requires 0 <= i < |data| && |names| == |correlation| == |pvalue| == |strength|
    requires Table(names, correlation, pvalue, strength) ==
               SpearmanRows(Selected(data[..i], target, Numeric), CellsOf(data, target), spearman)
    requires Qualifies(data[i], target, Numeric)
    requires test == spearman(CellsOf(data, target), data[i].values)
    ensures Table(names + [data[i].name], correlation + [test.stat], pvalue + [test.p], strength + [Classify(test.stat)]) ==
              SpearmanRows(Selected(data[..i + 1], target, Numeric), CellsOf(data, target), spearman)
  {
    SelectedSnoc(data, target, Numeric, i);
    TableSnoc(names, correlation, pvalue, strength, data[i].name, test.stat, test.p, Classify(test.stat));
    RowsSnoc(Selected(data[..i], target, Numeric), data[i], CellsOf(data, target), spearman);
  }

  /** Columns X = 1..5 and Y = 2, 4, .., 10 (numeric, Y the target) and a
      label column Z: the report has the one row for X; a coefficient of 1
      is "Very Strong". */
  lemma SpearmanExample(spearman: SpearmanTest)
    requires spearman([Num(2.0), Num(4.0), Num(6.0), Num(8.0), Num(10.0)],
                      [Num(1.0), Num(2.0), Num(3.0), Num(4.0), Num(5.0)]).stat == 1.0
    ensures var data := [Column("X", Numeric, [Num(1.0), Num(2.0), Num(3.0), Num(4.0), Num(5.0)]),
                         Column("Y", Numeric, [Num(2.0), Num(4.0), Num(6.0), Num(8.0), Num(10.0)]),
                         Column("Z", Categorical, [Label("a"), Label("b"), Label("a"), Label("b"), Label("a")])];
            var rows := SpearmanRows(Selected(data, "Y", Numeric), CellsOf(data, "Y"), spearman);
            |rows| == 1 && rows[0].feature == "X" && rows[0].r == 1.0 && Text(rows[0].strength) == "Very Strong"
  {
    var x := Column("X", Numeric, [Num(1.0), Num(2.0), Num(3.0), Num(4.0), Num(5.0)]);
    var y := Column("Y", Numeric, [Num(2.0), Num(4.0), Num(6.0), Num(8.0), Num(10.0)]);
    var z := Column("Z", Categorical, [Label("a"), Label("b"), Label("a"), Label("b"), Label("a")]);
    var data := [x, y, z];
    assert [x][..0] == [];
    assert Selected([x], "Y", Numeric) == [x];
    assert [x, y][..1] == [x];
    assert Selected([x, y], "Y", Numeric) == [x];
    assert data[..2] == [x, y];
    assert Selected(data, "Y", Numeric) == [x];
    assert CellsOf(data, "Y") == y.values;
  }
}
